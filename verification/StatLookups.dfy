/**
 Consequences of substring lookups over whole runs: how far the aggregated counters
 are the sums of the per-version ones, and exactly when a rejection is charged to the
 version of the response it answers (stats.go:34-62, kv.go:91-120).
 */
module StatLookups {
  import opened Wrappers
  import opened Strings
  import opened StatKeys
  import opened Stats
  import opened StatRuns

  // ---------------------------------------------------------------------
  // A nonce lookup only meets nonce keys

  predicate EndsInNonce(s: string) {
    |s| >= 5 && s[|s| - 5..] == "nonce"
  }

  lemma PeelNonce(head: string, tail: string, x: string)
    requires ColonFree(head) && !EndsInNonce(head) && Contains(head + ":" + tail, NONCE + x)
    ensures Contains(tail, NONCE + x)
  {
    var s, sub := head + ":" + tail, NONCE + x;
    var i :| 0 <= i <= |s| && OccursAt(s, sub, i);
    OccurrenceReads(s, sub, i, i + 5);
    OccurrenceReads(s, sub, i, |head|);
    assert s[i + 5] == ':';
    if i > |head| {
      var j := i - |head| - 1;
      assert tail[j..j + |sub|] == s[i..i + |sub|];
      ContainsAt(tail, sub, j);
    } else if i + 5 == |head| {
      NonceTail(head, tail, sub, i);
    } else {
      NonceMiss(s, sub, head, i);
    }
  }

  lemma NonceTail(head: string, tail: string, sub: string, i: nat)
    requires NONCE <= sub && OccursAt(head + ":" + tail, sub, i) && i + 5 == |head|
    ensures EndsInNonce(head)
  {
    var s := head + ":" + tail;
    assert forall j :: 0 <= j < 5 ==> head[i + j] == s[i + j] == s[i..i + |sub|][j] == sub[j] == NONCE[j] == "nonce"[j];
    assert head[i..] == "nonce";
  }

  lemma NonceMiss(s: string, sub: string, head: string, i: nat)
    requires NONCE <= sub && OccursAt(s, sub, i) && head + ":" <= s && ColonFree(head)
    ensures i > |head| || i + 5 == |head|
  {
    OccurrenceReads(s, sub, i, i + 5);
    OccurrenceReads(s, sub, i, |head|);
    assert s[i + 5] == ':' && s[|head|] == ':';
    assert forall j :: 0 <= j < 5 ==> sub[j] == "nonce"[j];
    assert forall j :: 0 <= j < |head| ==> s[j] == head[j] && s[j] != ':';
  }

  predicate Quiet(k: Key) {
    !EndsInNonce(k.node) && !EndsInNonce(k.rtype) && !EndsInNonce(k.version) && !EndsInNonce(k.pod)
  }

  lemma NonceInStat(k: Key, x: string)
    requires Plain(k) && Quiet(k) && Contains(Print(k), NONCE + x)
    ensures Contains(k.stat, NONCE + x)
  {
    PrintShape(k);
    PeelNonce(k.node, k.rtype + ":" + (k.version + ":" + (k.pod + ":" + k.stat)), x);
    PeelNonce(k.rtype, k.version + ":" + (k.pod + ":" + k.stat), x);
    PeelNonce(k.version, k.pod + ":" + k.stat, x);
    PeelNonce(k.pod, k.stat, x);
  }

  lemma CountingHasNoColon(stat: string, x: string)
    requires Counting(stat)
    ensures !Contains(stat, NONCE + x)
  {
    assert ColonFree(stat);
    if Contains(stat, NONCE + x) {
      var i :| 0 <= i <= |stat| && OccursAt(stat, NONCE + x, i);
      OccurrenceReads(stat, NONCE + x, i, i + 5);
    }
  }

  // ---------------------------------------------------------------------
  // Conservation

  /** Events with versions from `versions` and deletions that name no version: they take a pod's or a node's keys
      together. */
  ghost predicate Tame(e: Event, versions: set<string>) {
    && Clean(e)
    && match e
       case Response(_, _, v, _, _) => v in versions
       case Ack(_, _, v, _, _) => v in versions
       case Clear(f) => ColonFree(f) && !Contains(AGGREGATE, f) && forall v :: v in versions ==> !Contains(v, f)
       case _ => true
  }

  ghost predicate TameRun(es: seq<Event>, versions: set<string>) {
    && AGGREGATE !in versions && (forall v :: v in versions ==> ColonFree(v))
    && forall i :: 0 <= i < |es| ==> Tame(es[i], versions)
  }

  ghost predicate TameStore(st: Store, versions: set<string>) {
    && WellKeyed(st)
    && forall s :: s in st ==> TameKey(Parse(s).value, versions)
  }

  ghost predicate TameKey(k: Key, versions: set<string>) {
    k.version in versions || (k.version == AGGREGATE && !(NONCE <= k.stat))
  }

  lemma TamePut(st: Store, k: Key, item: Item, versions: set<string>)
    requires TameStore(st, versions) && TameKey(k, versions) && WellKeyed(st[Print(k) := item]) && Plain(k)
    ensures TameStore(st[Print(k) := item], versions)
  {
    ParsePrint(k);
  }

  lemma TameNackVersion(st: Store, n: string, t: string, p: string, x: string, versions: set<string>) returns (k: Key)
    requires TameStore(st, versions) && NackVersion(st, n, t, p, x).Some?
    ensures Plain(k) && Print(k) in Filtered(st, NonceFilters(n, t, p, x))
    ensures NackVersion(st, n, t, p, x) == Some(k.version) && TameKey(k, versions)
  {
    k := NackVersionKey(st, n, t, p, x);
    ParsePrint(k);
  }

  lemma TameCounts(st: Store, n: string, t: string, v: string, p: string, stat: string, versions: set<string>)
    requires TameStore(st, versions) && Plain(Key(n, t, v, p, stat)) && Counting(stat)
    requires v in versions || v == AGGREGATE
    ensures TameStore(Increment(Increment(st, Key(n, t, v, p, stat), 1), Key(n, t, AGGREGATE, p, stat), 1), versions)
  {
    var one, all := Key(n, t, v, p, stat), Key(n, t, AGGREGATE, p, stat);
    CountingIsNoNonce(stat);
    KeepInt(st, one, Counter(st, one) + 1);
    TamePut(st, one, Int(Counter(st, one) + 1), versions);
    var st1 := Increment(st, one, 1);
    KeepInt(st1, all, Counter(st1, all) + 1);
    TamePut(st1, all, Int(Counter(st1, all) + 1), versions);
  }

  lemma TameStep(st: Store, e: Event, versions: set<string>)
    requires TameStore(st, versions) && Tame(e, versions)
    ensures TameStore(After(st, e), versions)
  {
    match e
    case Request(n, t, p) =>
      var k := Key(n, t, AGGREGATE, p, REQUESTS);
      CountingIsNoNonce(REQUESTS);
      KeepInt(st, k, Counter(st, k) + 1);
      TamePut(st, k, Int(Counter(st, k) + 1), versions);
    case Response(n, t, v, p, x) =>
      KeepText(st, Key(n, t, v, p, NONCE + x));
      TamePut(st, Key(n, t, v, p, NONCE + x), Text(""), versions);
    case Nack(n, t, p, x) =>
      if NackVersion(st, n, t, p, x).Some? {
        var k := TameNackVersion(st, n, t, p, x, versions);
        TameCounts(st, n, t, k.version, p, NACKS, versions);
      }
    case Ack(n, t, v, p, now) =>
      TameCounts(st, n, t, v, p, ACKS, versions);
      var st1 := Increment(Increment(st, Key(n, t, v, p, ACKS), 1), Key(n, t, AGGREGATE, p, ACKS), 1);
      KeepInt(st1, Key(n, t, v, p, INFO), now);
      TamePut(st1, Key(n, t, v, p, INFO), Int(now), versions);
    case Clear(_) =>
    case Expire(_) =>
    case Restart =>
  }

  ghost function Pick(s: set<string>): (x: string)
    requires s != {}
    ensures x in s
  {
    var x :| x in s; x
  }

  ghost function Sum(st: Store, versions: set<string>, k: Key): (n: int)
    decreases |versions|
  {
    if versions == {} then 0
    else
      var v := Pick(versions);
      Counter(st, k.(version := v)) + Sum(st, versions - {v}, k)
  }

  /** One member's counter moves by `d`, the others stay. */
  ghost predicate Moved(a: Store, b: Store, versions: set<string>, k: Key, moved: string, d: int) {
    forall v :: v in versions ==>
      Counter(b, k.(version := v)) == Counter(a, k.(version := v)) + (if v == moved then d else 0)
  }

  lemma {:induction false} SumMoves(a: Store, b: Store, versions: set<string>, k: Key, moved: string, d: int)
    requires Moved(a, b, versions, k, moved, d)
    ensures Sum(b, versions, k) == Sum(a, versions, k) + (if moved in versions then d else 0)
    decreases |versions|
  {
    if versions != {} {
      SumMoves(a, b, versions - {Pick(versions)}, k, moved, d);
    }
  }

  lemma {:induction false} SumZero(st: Store, versions: set<string>, k: Key)
    requires forall v :: v in versions ==> Counter(st, k.(version := v)) == 0
    ensures Sum(st, versions, k) == 0
    decreases |versions|
  {
    if versions != {} {
      SumZero(st, versions - {Pick(versions)}, k);
    }
  }

  /** The aggregate exceeds the sum by `extra`. */
  ghost predicate Balanced(st: Store, versions: set<string>, k: Key, extra: int) {
    Counter(st, k.(version := AGGREGATE)) == Sum(st, versions, k) + extra
  }

  lemma BalancedClear(st: Store, f: string, versions: set<string>, k: Key, extra: int)
    requires TameStore(st, versions) && Tame(Clear(f), versions) && Balanced(st, versions, k, extra)
    requires forall v :: v in versions ==> ColonFree(v)
    requires Plain(k) && (k.stat == NACKS || k.stat == ACKS)
    ensures Balanced(After(st, Clear(f)), versions, k,
                     if Contains(Print(k.(version := AGGREGATE)), f) then 0 else extra)
  {
    var all := k.(version := AGGREGATE);
    FilterWithinField(all, f);
    CounterStep(st, Clear(f), all);
    forall v | v in versions
      ensures Contains(Print(k.(version := v)), f) <==> Contains(Print(all), f)
      ensures Counter(After(st, Clear(f)), k.(version := v)) ==
              if Contains(Print(all), f) then 0 else Counter(st, k.(version := v))
    {
      FilterWithinField(k.(version := v), f);
      CounterStep(st, Clear(f), k.(version := v));
    }
    if Contains(Print(all), f) {
      SumZero(After(st, Clear(f)), versions, k);
    } else {
      SumMoves(st, After(st, Clear(f)), versions, k, AGGREGATE, 0);
    }
  }

  /** The counter of `moved` rises by `d`, if it is one of the versions, and the aggregate by `up`. */
  lemma BalancedMove(st: Store, e: Event, versions: set<string>, k: Key, moved: string, d: nat, up: nat, extra: int)
    requires TameStore(st, versions) && Tame(e, versions) && Balanced(st, versions, k, extra)
    requires !e.Clear? && !e.Restart?
    requires forall v :: v in versions ==> ColonFree(v) && Delta(st, e, k.(version := v)) == if v == moved then d else 0
    requires Delta(st, e, k.(version := AGGREGATE)) == up
    requires Plain(k) && (k.stat == NACKS || k.stat == ACKS)
    ensures Balanced(After(st, e), versions, k, extra + up - (if moved in versions then d else 0))
  {
    CounterStep(st, e, k.(version := AGGREGATE));
    forall v | v in versions
      ensures Counter(After(st, e), k.(version := v)) == Counter(st, k.(version := v)) + (if v == moved then d else 0)
    {
      CounterStep(st, e, k.(version := v));
    }
    SumMoves(st, After(st, e), versions, k, moved, d);
  }

  /** A rejection that the aggregate itself was charged with, by a nonce lookup that met another kind of key. */
  ghost predicate Strays(st: Store, e: Event, k: Key) {
    && e.Nack? && (e.node, e.rtype, e.pod) == (k.node, k.rtype, k.pod)
    && NackVersion(st, e.node, e.rtype, e.pod, e.nonce) == Some(AGGREGATE)
  }

  lemma BalancedNack(st: Store, n: string, t: string, p: string, x: string, versions: set<string>, k: Key, extra: int)
    requires TameStore(st, versions) && Clean(Nack(n, t, p, x)) && AGGREGATE !in versions
    requires Balanced(st, versions, k, extra)
    requires forall v :: v in versions ==> ColonFree(v)
    requires Plain(k) && k.stat == NACKS
    ensures Balanced(After(st, Nack(n, t, p, x)), versions, k, extra + if Strays(st, Nack(n, t, p, x), k) then 2 else 0)
  {
    var e := Nack(n, t, p, x);
    if (n, t, p) == (k.node, k.rtype, k.pod) && NackVersion(st, n, t, p, x).Some? {
      var w := TameNackVersion(st, n, t, p, x, versions);
      if w.version == AGGREGATE {
        BalancedMove(st, e, versions, k, AGGREGATE, 0, 2, extra);
      } else {
        BalancedMove(st, e, versions, k, w.version, 1, 1, extra);
      }
    } else {
      BalancedMove(st, e, versions, k, AGGREGATE, 0, 0, extra);
    }
  }

  lemma BalancedStep(st: Store, e: Event, versions: set<string>, k: Key, extra: int)
    requires TameStore(st, versions) && Tame(e, versions) && AGGREGATE !in versions && Balanced(st, versions, k, extra)
    requires forall v :: v in versions ==> ColonFree(v)
    requires Plain(k) && (k.stat == NACKS || k.stat == ACKS)
    ensures Balanced(After(st, e), versions, k,
                     match e
                     case Clear(f) => if Contains(Print(k.(version := AGGREGATE)), f) then 0 else extra
                     case Restart => 0
                     case _ => extra + if k.stat == NACKS && Strays(st, e, k) then 2 else 0)
  {
    DistinctStats("");
    match e
    case Clear(f) => BalancedClear(st, f, versions, k, extra);
    case Restart => SumZero(After(st, e), versions, k);
    case Nack(n, t, p, x) =>
      if k.stat == NACKS {
        BalancedNack(st, n, t, p, x, versions, k, extra);
      } else {
        BalancedMove(st, e, versions, k, AGGREGATE, 0, 0, extra);
      }
    case Ack(n, t, v, p, _) =>
      if k.stat == ACKS && (n, t, p) == (k.node, k.rtype, k.pod) {
        BalancedMove(st, e, versions, k, v, 1, 1, extra);
      } else {
        BalancedMove(st, e, versions, k, AGGREGATE, 0, 0, extra);
      }
    case _ => BalancedMove(st, e, versions, k, AGGREGATE, 0, 0, extra);
  }

  /** Twice the rejections that strayed to the aggregate since it was last cleared. */
  ghost function Surplus(es: seq<Event>, k: Key): (n: nat) {
    if k.stat == NACKS then 2 * Charged(es, k.(version := AGGREGATE)) else 0
  }

  /** In every such run the aggregated counter of a node, type and pod is the sum of its per-version counters, plus
      the surplus; so it is the sum if and only if no rejection strayed. */
  lemma {:induction false} AggregateIsSum(es: seq<Event>, versions: set<string>, k: Key)
    requires TameRun(es, versions) && Plain(k) && (k.stat == NACKS || k.stat == ACKS)
    ensures TameStore(Run(es), versions)
    ensures Counter(Run(es), k.(version := AGGREGATE)) == Sum(Run(es), versions, k) + Surplus(es, k)
  {
    if es == [] {
      SumZero(Run(es), versions, k);
    } else {
      var init := es[..|es| - 1];
      AggregateIsSum(init, versions, k);
      TameStep(Run(init), es[|es| - 1], versions);
      BalancedStep(Run(init), es[|es| - 1], versions, k, Surplus(init, k));
    }
  }

  /** None of the event's identifiers can be mistaken for the start of a nonce. */
  ghost predicate QuietEvent(e: Event) {
    match e
    case Request(n, t, p) => Quiet(Key(n, t, AGGREGATE, p, ""))
    case Response(n, t, v, p, _) => Quiet(Key(n, t, v, p, ""))
    case Nack(n, t, p, _) => Quiet(Key(n, t, AGGREGATE, p, ""))
    case Ack(n, t, v, p, _) => Quiet(Key(n, t, v, p, ""))
    case _ => true
  }

  /** No rejection strays if no identifier ends in the word the nonce keys begin with. */
  lemma {:induction false} QuietNeverStrays(es: seq<Event>, versions: set<string>, k: Key)
    requires TameRun(es, versions) && (forall i :: 0 <= i < |es| ==> QuietEvent(es[i]))
    requires Plain(k) && (k.stat == NACKS || k.stat == ACKS)
    ensures Surplus(es, k) == 0
  {
    if es != [] {
      var init, e := es[..|es| - 1], es[|es| - 1];
      QuietNeverStrays(init, versions, k);
      if Strays(Run(init), e, k) {
        AggregateIsSum(init, versions, k);
        var w := TameNackVersion(Run(init), e.node, e.rtype, e.pod, e.nonce, versions);
        QuietMatch(init, e.node, e.rtype, e.pod, e.nonce, w);
      }
    }
  }

  /** What a nonce lookup finds among quiet keys is a nonce. */
  lemma QuietMatch(es: seq<Event>, n: string, t: string, p: string, x: string, k: Key)
    requires CleanRun(es) && (forall i :: 0 <= i < |es| ==> QuietEvent(es[i])) && Plain(k)
    requires Print(k) in Filtered(Run(es), NonceFilters(n, t, p, x))
    ensures NONCE <= k.stat
  {
    RunWellKeyed(es);
    RunQuiet(es, Print(k));
    ParsePrint(k);
    assert WellKept(Print(k), Run(es)[Print(k)]);
    MatchInStat(Run(es), n, t, p, x, k);
  }

  /** A quiet key that a nonce lookup finds holds the nonce in its stat name, and is no counter. */
  lemma MatchInStat(st: Store, n: string, t: string, p: string, x: string, k: Key)
    requires Plain(k) && Quiet(k) && Print(k) in Filtered(st, NonceFilters(n, t, p, x))
    ensures Contains(k.stat, NONCE + x) && !Counting(k.stat)
  {
    assert Contains(Print(k), NonceFilters(n, t, p, x)[3]);
    NonceInStat(k, x);
    if Counting(k.stat) {
      CountingHasNoColon(k.stat, x);
    }
  }

  /** A pod whose name ends in that word can make one stray: it names a counter where a nonce is meant. */
  lemma StrayRejection(node: string, rtype: string)
    requires ColonFree(node) && ColonFree(rtype)
    ensures NackVersion(Run([Request(node, rtype, "nonce")]), node, rtype, "nonce", REQUESTS) == Some(AGGREGATE)
  {
    var e := Request(node, rtype, "nonce");
    var k := Key(node, rtype, AGGREGATE, "nonce", REQUESTS);
    RunOne(e);
    PrintContainsFields(k);
    PrintShape(k);
    var left := node + ":" + rtype + ":" + AGGREGATE + ":";
    assert "nonce" + ":" + REQUESTS == NONCE + REQUESTS;
    assert Print(k) == left + (NONCE + REQUESTS) + "";
    Field(left, NONCE + REQUESTS, "", Print(k));
    OneMatch(Run([e]), node, rtype, "nonce", REQUESTS, k);
  }

  lemma OneMatch(st: Store, node: string, rtype: string, pod: string, nonce: string, k: Key)
    requires Plain(k) && st.Keys == {Print(k)} && Contains(Print(k), node) && Contains(Print(k), rtype)
    requires Contains(Print(k), pod) && Contains(Print(k), NONCE + nonce)
    ensures NackVersion(st, node, rtype, pod, nonce) == Some(k.version)
  {
    var s, fs := Print(k), NonceFilters(node, rtype, pod, nonce);
    assert MatchesAll(s, fs);
    var keys := Filtered(st, fs).Keys;
    assert s in keys;
    assert keys == {s};
    ParsePrint(k);
  }

  // ---------------------------------------------------------------------
  // Exactness of the nonce lookup

  /** The keys a lookup by fields, rather than by substrings, would find. */
  ghost predicate ExactNonce(s: string, node: string, rtype: string, pod: string, nonce: string) {
    match Parse(s)
    case None => false
    case Some(k) => (k.node, k.rtype, k.pod, k.stat) == (node, rtype, pod, NONCE + nonce)
  }

  /** The substring lookup finds every key the exact lookup would. */
  lemma NonceLookupIsSuperset(st: Store, node: string, rtype: string, pod: string, nonce: string, s: string)
    requires WellKeyed(st) && s in st && ExactNonce(s, node, rtype, pod, nonce)
    ensures s in Filtered(st, NonceFilters(node, rtype, pod, nonce))
  {
    assert WellKept(s, st[s]);
    PrintContainsFields(Parse(s).value);
  }

  /** The substring lookup finds the keys of this client's nonce and no other. */
  ghost predicate LookupExact(st: Store, node: string, rtype: string, pod: string, nonce: string) {
    forall s :: s in st ==> (s in Filtered(st, NonceFilters(node, rtype, pod, nonce)) <==>
              ExactNonce(s, node, rtype, pod, nonce))
  }

  /** Among the keys now in the store that contain the three identifiers, nonces are this client's own, and no
      identifier ends in the word nonce keys begin with. */
  ghost predicate Apart(st: Store, node: string, rtype: string, pod: string) {
    forall s :: s in st && Contains(s, node) && Contains(s, rtype) && Contains(s, pod) ==>
      var k := Parse(s);
      k.Some? && Quiet(k.value) && (st[s].Text? ==> (k.value.node, k.value.rtype, k.value.pod) == (node, rtype, pod))
  }

  /** An unexpired nonce of this client, other than `nonce`, that contains it. */
  ghost predicate Lookalike(st: Store, node: string, rtype: string, pod: string, nonce: string, s: string) {
    && s in st && st[s].Text? && Parse(s).Some?
    && var k := Parse(s).value;
       && (k.node, k.rtype, k.pod) == (node, rtype, pod)
       && k.stat != NONCE + nonce && Contains(k.stat, NONCE + nonce)
  }

  /** Exactly when the substring lookup of a client's nonce is the lookup by fields. */
  lemma LookupExactIff(st: Store, node: string, rtype: string, pod: string, nonce: string)
    requires WellKeyed(st) && Apart(st, node, rtype, pod)
    ensures LookupExact(st, node, rtype, pod, nonce) <==> !exists s :: Lookalike(st, node, rtype, pod, nonce, s)
  {
    var found := Filtered(st, NonceFilters(node, rtype, pod, nonce));
    forall s | Lookalike(st, node, rtype, pod, nonce, s) ensures s in found && !ExactNonce(s, node, rtype, pod, nonce) {
      LookalikeFound(st, node, rtype, pod, nonce, s);
    }
    forall s | s in found ensures ExactNonce(s, node, rtype, pod, nonce) || Lookalike(st, node, rtype, pod, nonce, s) {
      FoundIsOwn(st, node, rtype, pod, nonce, s);
    }
    forall s | s in st && ExactNonce(s, node, rtype, pod, nonce) ensures s in found {
      NonceLookupIsSuperset(st, node, rtype, pod, nonce, s);
    }
  }

  lemma LookalikeFound(st: Store, node: string, rtype: string, pod: string, nonce: string, s: string)
    requires WellKeyed(st) && Lookalike(st, node, rtype, pod, nonce, s)
    ensures s in Filtered(st, NonceFilters(node, rtype, pod, nonce))
  {
    assert WellKept(s, st[s]);
    var k := Parse(s).value;
    PrintContainsFields(k);
    StatInKey(k, NONCE + nonce);
    assert MatchesAll(s, NonceFilters(node, rtype, pod, nonce));
  }

  lemma FoundIsOwn(st: Store, node: string, rtype: string, pod: string, nonce: string, s: string)
    requires WellKeyed(st) && Apart(st, node, rtype, pod) && s in Filtered(st, NonceFilters(node, rtype, pod, nonce))
    ensures ExactNonce(s, node, rtype, pod, nonce) || Lookalike(st, node, rtype, pod, nonce, s)
  {
    var fs := NonceFilters(node, rtype, pod, nonce);
    assert Contains(s, fs[0]) && Contains(s, fs[1]) && Contains(s, fs[2]);
    assert WellKept(s, st[s]);
    MatchInStat(st, node, rtype, pod, nonce, Parse(s).value);
  }

  /** Of nonces without colons, as the server numbers them, a lookalike is one that properly extends `nonce`. */
  lemma LookalikeExtends(st: Store, node: string, rtype: string, pod: string, nonce: string, s: string, y: string)
    requires WellKeyed(st) && s in st && st[s].Text? && Parse(s).Some? && Parse(s).value.stat == NONCE + y
    requires ColonFree(y)
    requires (Parse(s).value.node, Parse(s).value.rtype, Parse(s).value.pod) == (node, rtype, pod)
    ensures Lookalike(st, node, rtype, pod, nonce, s) <==> nonce < y
  {
    if Contains(NONCE + y, NONCE + nonce) {
      NoncePrefix(nonce, y);
    }
    if nonce <= y {
      assert NONCE + y == "" + (NONCE + nonce) + y[|nonce|..];
      Field("", NONCE + nonce, y[|nonce|..], NONCE + y);
    }
    assert NONCE + y == NONCE + nonce ==> (NONCE + y)[|NONCE|..] == (NONCE + nonce)[|NONCE|..];
    assert (NONCE + y)[|NONCE|..] == y && (NONCE + nonce)[|NONCE|..] == nonce;
  }

  ghost predicate Sent(es: seq<Event>, k: Key, nonce: string) {
    exists i :: 0 <= i < |es| && es[i] == Response(k.node, k.rtype, k.version, k.pod, nonce)
  }

  lemma SentEarlier(es: seq<Event>, k: Key, nonce: string)
    requires es != [] && Sent(es[..|es| - 1], k, nonce)
    ensures Sent(es, k, nonce)
  {
  }

  /** Every nonce on record was written by a response. */
  lemma {:induction false} NonceWasSent(es: seq<Event>, s: string)
    requires CleanRun(es) && s in Run(es) && Run(es)[s].Text?
    ensures Parse(s).Some? && NONCE <= Parse(s).value.stat
    ensures Sent(es, Parse(s).value, Parse(s).value.stat[|NONCE|..])
  {
    var init := es[..|es| - 1];
    var st, e := Run(init), es[|es| - 1];
    if e.Response? && s == Print(Key(e.node, e.rtype, e.version, e.pod, NONCE + e.nonce)) {
      ParsePrint(Key(e.node, e.rtype, e.version, e.pod, NONCE + e.nonce));
      assert es[|es| - 1] == Response(e.node, e.rtype, e.version, e.pod, e.nonce);
    } else {
      assert s in st && st[s].Text?;
      NonceWasSent(init, s);
      SentEarlier(es, Parse(s).value, Parse(s).value.stat[|NONCE|..]);
    }
  }

  lemma NoncePrefix(x: string, y: string)
    requires ColonFree(y) && Contains(NONCE + y, NONCE + x)
    ensures x <= y
  {
    var s, sub := NONCE + y, NONCE + x;
    var i :| 0 <= i <= |s| && OccursAt(s, sub, i);
    OccurrenceReads(s, sub, i, i + 5);
    assert s[i + 5] == ':';
    assert forall j :: 6 <= j < |s| ==> s[j] == y[j - 6] && s[j] != ':';
    assert s[0..|sub|] == sub;
    assert y[..|x|] == s[6..|sub|] == sub[6..] == x;
  }

  lemma {:induction false} RunQuiet(es: seq<Event>, s: string)
    requires CleanRun(es) && s in Run(es) && forall i :: 0 <= i < |es| ==> QuietEvent(es[i])
    ensures Parse(s).Some? && Quiet(Parse(s).value)
  {
    var init := es[..|es| - 1];
    var st, e := Run(init), es[|es| - 1];
    RunWellKeyed(init);
    assert QuietEvent(e) && Clean(e);
    if s in st {
      RunQuiet(init, s);
    } else {
      if e.Nack? && NackVersion(st, e.node, e.rtype, e.pod, e.nonce).Some? {
        var k := NackVersionKey(st, e.node, e.rtype, e.pod, e.nonce);
        RunQuiet(init, Print(k));
        ParsePrint(k);
      }
      NewKeyIsQuiet(st, e, s);
    }
  }

  /** A key that an event adds comes from the event, or from the nonce a rejection names. */
  lemma NewKeyIsQuiet(st: Store, e: Event, s: string)
    requires WellKeyed(st) && Clean(e) && QuietEvent(e) && s in After(st, e) && s !in st
    requires e.Nack? ==>
               var v := NackVersion(st, e.node, e.rtype, e.pod, e.nonce);
               v.Some? ==> ColonFree(v.value) && !EndsInNonce(v.value)
    ensures Parse(s).Some? && Quiet(Parse(s).value)
  {
    match e
    case Request(n, t, p) => ParsePrint(Key(n, t, AGGREGATE, p, REQUESTS));
    case Response(n, t, v, p, x) => ParsePrint(Key(n, t, v, p, NONCE + x));
    case Nack(n, t, p, x) => CountedIsQuiet(n, t, NackVersion(st, n, t, p, x).value, p, NACKS);
    case Ack(n, t, v, p, _) =>
      CountedIsQuiet(n, t, v, p, ACKS);
      ParsePrint(Key(n, t, v, p, INFO));
  }

  lemma CountedIsQuiet(n: string, t: string, v: string, p: string, stat: string)
    requires Plain(Key(n, t, v, p, stat)) && Quiet(Key(n, t, v, p, stat))
    ensures Parse(Print(Key(n, t, v, p, stat))) == Some(Key(n, t, v, p, stat))
    ensures Parse(Print(Key(n, t, AGGREGATE, p, stat))) == Some(Key(n, t, AGGREGATE, p, stat))
    ensures Quiet(Key(n, t, AGGREGATE, p, stat))
  {
    ParsePrint(Key(n, t, v, p, stat));
    ParsePrint(Key(n, t, AGGREGATE, p, stat));
  }

  /**
   Then a counted rejection is charged to the version of a response that carried that very nonce to that very
   client. What matters is only what is in the store at the time; expired nonces do not.
   */
  lemma RejectionChargedToItsResponse(es: seq<Event>, node: string, rtype: string, pod: string, nonce: string)
    requires CleanRun(es) && Apart(Run(es), node, rtype, pod)
    requires !exists s :: Lookalike(Run(es), node, rtype, pod, nonce, s)
    ensures LookupExact(Run(es), node, rtype, pod, nonce)
    ensures match NackVersion(Run(es), node, rtype, pod, nonce)
            case Some(v) => Response(node, rtype, v, pod, nonce) in es
            case None => true
  {
    var st := Run(es);
    RunWellKeyed(es);
    LookupExactIff(st, node, rtype, pod, nonce);
    if NackVersion(st, node, rtype, pod, nonce).Some? {
      var k := NackVersionKey(st, node, rtype, pod, nonce);
      ParsePrint(k);
      assert Print(k) in Filtered(st, NonceFilters(node, rtype, pod, nonce));
      ExactWasSent(es, node, rtype, pod, nonce, k);
    }
  }

  lemma ExactWasSent(es: seq<Event>, node: string, rtype: string, pod: string, nonce: string, k: Key)
    requires CleanRun(es) && Plain(k) && Print(k) in Run(es) && ExactNonce(Print(k), node, rtype, pod, nonce)
    ensures Response(node, rtype, k.version, pod, nonce) in es
  {
    ParsePrint(k);
    RunWellKeyed(es);
    assert WellKept(Print(k), Run(es)[Print(k)]);
    CountingIsNoNonce(k.stat);
    NonceWasSent(es, Print(k));
    assert (NONCE + nonce)[|NONCE|..] == nonce;
  }

  /** Without the condition on nonces it fails: a rejection of a nonce never sent is charged to a longer one. */
  lemma PrefixNonceMischarged(node: string, rtype: string, version: string, pod: string, nonce: string, longer: string)
    requires Plain(Key(node, rtype, version, pod, "")) && nonce < longer
    ensures NackVersion(Run([Response(node, rtype, version, pod, longer)]), node, rtype, pod, nonce) == Some(version)
  {
    var e := Response(node, rtype, version, pod, longer);
    var k := Key(node, rtype, version, pod, NONCE + longer);
    RunOne(e);
    PrintContainsFields(k);
    PrefixOccurs(k, nonce, longer);
    OneMatch(Run([e]), node, rtype, pod, nonce, k);
  }

  lemma RunOne(e: Event)
    ensures Run([e]) == After(map[], e)
  {
  }

  lemma PrefixOccurs(k: Key, nonce: string, longer: string)
    requires k.stat == NONCE + longer && nonce <= longer
    ensures Contains(Print(k), NONCE + nonce)
  {
    PrintShape(k);
    var left := k.node + ":" + k.rtype + ":" + k.version + ":" + k.pod + ":";
    var right := longer[|nonce|..];
    assert NONCE + longer == (NONCE + nonce) + right;
    assert Print(k) == left + (NONCE + longer);
    assert Print(k) == left + (NONCE + nonce) + right;
    Field(left, NONCE + nonce, right, Print(k));
  }
}

/**
 Whole runs of the statistics store against the history of stream events that
 produced it (stats.go, kv.go, garbage_collector.go, v3/callbacks.go).
 */
module StatRuns {
  import opened Wrappers
  import opened Strings
  import opened StatKeys
  import opened Stats

  datatype Event =
    | Request(node: string, rtype: string, pod: string)
    | Response(node: string, rtype: string, version: string, pod: string, nonce: string)
    | Nack(node: string, rtype: string, pod: string, nonce: string)
    | Ack(node: string, rtype: string, version: string, pod: string, now: int)
    | Clear(filter: string)  // a pod was deleted or a published revision was finalized
    | Expire(key: string)    // a nonce outlived its ten seconds
    | Restart

  ghost function After(st: Store, e: Event): (r: Store) {
    match e
    case Request(n, t, p) => Increment(st, Key(n, t, AGGREGATE, p, REQUESTS), 1)
    case Response(n, t, v, p, x) => st[Print(Key(n, t, v, p, NONCE + x)) := Text("")]
    case Nack(n, t, p, x) =>
      (match NackVersion(st, n, t, p, x) case Some(v) => CountNack(st, n, t, v, p) case None => st)
    case Ack(n, t, v, p, now) => CountAck(st, n, t, v, p, now)
    case Clear(f) => Removed(st, f)
    case Expire(k) => if k in st && st[k].Text? then st - {k} else st
    case Restart => map[]
  }

  ghost function Run(es: seq<Event>): (r: Store) {
    if es == [] then map[] else After(Run(es[..|es| - 1]), es[|es| - 1])
  }

  /** Client identifiers and versions without colons. */
  ghost predicate Clean(e: Event) {
    match e
    case Request(n, t, p) => ColonFree(n) && ColonFree(t) && ColonFree(p)
    case Response(n, t, v, p, _) => ColonFree(n) && ColonFree(t) && ColonFree(v) && ColonFree(p)
    case Nack(n, t, p, _) => ColonFree(n) && ColonFree(t) && ColonFree(p)
    case Ack(n, t, v, p, _) => ColonFree(n) && ColonFree(t) && ColonFree(v) && ColonFree(p)
    case _ => true
  }

  ghost predicate CleanRun(es: seq<Event>) {
    forall i :: 0 <= i < |es| ==> Clean(es[i])
  }

  // ---------------------------------------------------------------------
  // What a reachable store holds

  predicate Counting(stat: string) {
    stat == NACKS || stat == ACKS || stat == REQUESTS || stat == INFO
  }

  /** The key reads back as printed, counters and timestamps hold integers, nonces hold text. */
  predicate WellKept(s: string, item: Item) {
    match Parse(s)
    case None => false
    case Some(k) =>
      && Plain(k) && Print(k) == s
      && (if item.Int? then Counting(k.stat) else NONCE <= k.stat)
  }

  ghost predicate WellKeyed(st: Store) {
    forall s :: s in st ==> WellKept(s, st[s])
  }

  lemma KeepInt(st: Store, k: Key, n: int)
    requires WellKeyed(st) && Plain(k) && Counting(k.stat)
    ensures WellKeyed(st[Print(k) := Int(n)])
  {
    ParsePrint(k);
  }

  lemma KeepText(st: Store, k: Key)
    requires WellKeyed(st) && Plain(k) && NONCE <= k.stat
    ensures WellKeyed(st[Print(k) := Text("")])
  {
    ParsePrint(k);
  }

  lemma NackVersionKey(st: Store, n: string, t: string, p: string, x: string) returns (k: Key)
    requires WellKeyed(st) && NackVersion(st, n, t, p, x).Some?
    ensures Plain(k) && Print(k) in st && k.version == NackVersion(st, n, t, p, x).value
    ensures Filtered(st, NonceFilters(n, t, p, x)).Keys == {Print(k)}
  {
    var keys := Filtered(st, NonceFilters(n, t, p, x)).Keys;
    var s :| s in keys && VersionOf(s) == NackVersion(st, n, t, p, x).value;
    k := Parse(s).value;
    EqualSize({s}, keys);
  }

  /** In every run of colon-free identifiers the store can be read and collected without a failure. */
  lemma {:induction false} RunWellKeyed(es: seq<Event>)
    requires CleanRun(es)
    ensures WellKeyed(Run(es))
  {
    if es != [] {
      var st, e := Run(es[..|es| - 1]), es[|es| - 1];
      RunWellKeyed(es[..|es| - 1]);
      match e
      case Request(n, t, p) =>
        KeepInt(st, Key(n, t, AGGREGATE, p, REQUESTS), Counter(st, Key(n, t, AGGREGATE, p, REQUESTS)) + 1);
      case Response(n, t, v, p, x) =>
        KeepText(st, Key(n, t, v, p, NONCE + x));
      case Nack(n, t, p, x) =>
        if NackVersion(st, n, t, p, x).Some? {
          var k := NackVersionKey(st, n, t, p, x);
          KeepCounts(st, n, t, k.version, p, NACKS);
        }
      case Ack(n, t, v, p, now) =>
        KeepCounts(st, n, t, v, p, ACKS);
        KeepInt(Increment(Increment(st, Key(n, t, v, p, ACKS), 1), Key(n, t, AGGREGATE, p, ACKS), 1),
                Key(n, t, v, p, INFO), now);
      case Clear(_) =>
      case Expire(_) =>
      case Restart =>
    }
  }

  lemma KeepCounts(st: Store, n: string, t: string, v: string, p: string, stat: string)
    requires WellKeyed(st) && Plain(Key(n, t, v, p, stat)) && Counting(stat)
    ensures WellKeyed(Increment(Increment(st, Key(n, t, v, p, stat), 1), Key(n, t, AGGREGATE, p, stat), 1))
  {
    var one := Key(n, t, v, p, stat);
    KeepInt(st, one, Counter(st, one) + 1);
    var all := Key(n, t, AGGREGATE, p, stat);
    KeepInt(Increment(st, one, 1), all, Counter(Increment(st, one, 1), all) + 1);
  }

  /** Raising one plain counter moves that counter and no other. */
  lemma IncrementMoves(st: Store, a: Key, delta: int, k: Key)
    requires Plain(a) && Plain(k)
    ensures Counter(Increment(st, a, delta), k) == Counter(st, k) + (if a == k then delta else 0)
  {
    if Print(a) == Print(k) {
      PrintInjective(a, k);
    }
  }

  lemma CountsMove(st: Store, n: string, t: string, v: string, p: string, stat: string, k: Key)
    requires Plain(Key(n, t, v, p, stat)) && Plain(k)
    ensures Counter(Increment(Increment(st, Key(n, t, v, p, stat), 1), Key(n, t, AGGREGATE, p, stat), 1), k) ==
            Counter(st, k) + (if Key(n, t, v, p, stat) == k then 1 else 0)
            + (if Key(n, t, AGGREGATE, p, stat) == k then 1 else 0)
  {
    var one := Key(n, t, v, p, stat);
    IncrementMoves(st, one, 1, k);
    IncrementMoves(Increment(st, one, 1), Key(n, t, AGGREGATE, p, stat), 1, k);
  }

  lemma PutElsewhere(st: Store, a: Key, item: Item, k: Key)
    requires Plain(a) && Plain(k) && a != k
    ensures Counter(st[Print(a) := item], k) == Counter(st, k)
    ensures Print(k) in st[Print(a) := item] <==> Print(k) in st
  {
    if Print(a) == Print(k) {
      PrintInjective(a, k);
    }
  }

  lemma DistinctStats(x: string)
    ensures NONCE + x != NACKS && NONCE + x != ACKS && NONCE + x != REQUESTS && NONCE + x != INFO
    ensures NACKS != ACKS && NACKS != REQUESTS && NACKS != INFO && ACKS != REQUESTS && ACKS != INFO && REQUESTS != INFO
  {
    assert NACKS[1] == 'a' && ACKS[0] == 'a' && REQUESTS[0] == 'r' && INFO[0] == 'i' && (NONCE + x)[1] == 'o';
  }

  lemma CountingIsNoNonce(stat: string)
    ensures Counting(stat) ==> !(NONCE <= stat)
  {
    assert NACKS[1] == 'a' && ACKS[0] == 'a' && REQUESTS[0] == 'r' && INFO[0] == 'i';
    assert NONCE[1] == 'o' && NONCE[0] == 'n';
  }

  /** What an event adds to a rejection or acceptance counter, deletions aside. */
  ghost function Delta(st: Store, e: Event, k: Key): (d: nat) {
    match e
    case Nack(n, t, p, x) =>
      var v := NackVersion(st, n, t, p, x);
      if k.stat == NACKS && (n, t, p) == (k.node, k.rtype, k.pod) && v.Some?
      then (if v.value == k.version then 1 else 0) + (if k.version == AGGREGATE then 1 else 0)
      else 0
    case Ack(n, t, v, p, _) =>
      if k.stat == ACKS && (n, t, p) == (k.node, k.rtype, k.pod)
      then (if v == k.version then 1 else 0) + (if k.version == AGGREGATE then 1 else 0)
      else 0
    case _ => 0
  }

  /** How one event moves a rejection or acceptance counter. */
  lemma CounterStep(st: Store, e: Event, k: Key)
    requires WellKeyed(st) && Clean(e) && Plain(k) && (k.stat == NACKS || k.stat == ACKS)
    ensures Counter(After(st, e), k) ==
            match e
            case Clear(f) => if Contains(Print(k), f) then 0 else Counter(st, k)
            case Restart => 0
            case _ => Counter(st, k) + Delta(st, e, k)
  {
    match e
    case Request(n, t, p) =>
      DistinctStats("");
      IncrementMoves(st, Key(n, t, AGGREGATE, p, REQUESTS), 1, k);
    case Response(n, t, v, p, x) =>
      DistinctStats(x);
      PutElsewhere(st, Key(n, t, v, p, NONCE + x), Text(""), k);
    case Nack(n, t, p, x) => NackMoves(st, n, t, p, x, k);
    case Ack(n, t, v, p, now) => AckMoves(st, n, t, v, p, now, k);
    case Clear(f) =>
    case Expire(_) =>
    case Restart =>
  }

  lemma NackMoves(st: Store, n: string, t: string, p: string, x: string, k: Key)
    requires WellKeyed(st) && Clean(Nack(n, t, p, x)) && Plain(k)
    ensures Counter(After(st, Nack(n, t, p, x)), k) == Counter(st, k) + Delta(st, Nack(n, t, p, x), k)
  {
    if NackVersion(st, n, t, p, x).Some? {
      var w := NackVersionKey(st, n, t, p, x);
      CountsMove(st, n, t, w.version, p, NACKS, k);
    }
  }

  lemma AckMoves(st: Store, n: string, t: string, v: string, p: string, now: int, k: Key)
    requires Clean(Ack(n, t, v, p, now)) && Plain(k) && (k.stat == NACKS || k.stat == ACKS)
    ensures Counter(After(st, Ack(n, t, v, p, now)), k) == Counter(st, k) + Delta(st, Ack(n, t, v, p, now), k)
  {
    CountsMove(st, n, t, v, p, ACKS, k);
    DistinctStats("");
    PutElsewhere(Increment(Increment(st, Key(n, t, v, p, ACKS), 1), Key(n, t, AGGREGATE, p, ACKS), 1),
                 Key(n, t, v, p, INFO), Int(now), k);
  }

  // ---------------------------------------------------------------------
  // A taint by rejections is backed by the history

  /** Rejections the key's pod sent of the key's version, by the nonce each named, since the key was last cleared. */
  ghost function Charged(es: seq<Event>, k: Key): (n: nat) {
    if es == [] then 0
    else
      var init := es[..|es| - 1];
      match es[|es| - 1]
      case Nack(n, t, p, x) =>
        Charged(init, k)
        + (if (n, t, p) == (k.node, k.rtype, k.pod) && NackVersion(Run(init), n, t, p, x) == Some(k.version)
           then 1 else 0)
      case Clear(f) => if Contains(Print(k), f) then 0 else Charged(init, k)
      case Restart => 0
      case _ => Charged(init, k)
  }

  /** The pod asked for the type since its request counter was last cleared. */
  ghost predicate Asked(es: seq<Event>, node: string, rtype: string, pod: string) {
    if es == [] then false
    else
      var earlier := Asked(es[..|es| - 1], node, rtype, pod);
      match es[|es| - 1]
      case Request(n, t, p) => (n, t, p) == (node, rtype, pod) || earlier
      case Clear(f) => !Contains(Print(Key(node, rtype, AGGREGATE, pod, REQUESTS)), f) && earlier
      case Restart => false
      case _ => earlier
  }

  /** The counter of a version is exactly the number of rejections of that version in the history. */
  lemma {:induction false} CounterBackedByHistory(es: seq<Event>, k: Key)
    requires CleanRun(es) && Plain(k) && k.stat == NACKS && k.version != AGGREGATE
    ensures Counter(Run(es), k) == Charged(es, k)
  {
    if es != [] {
      RunWellKeyed(es[..|es| - 1]);
      CounterBackedByHistory(es[..|es| - 1], k);
      CounterStep(Run(es[..|es| - 1]), es[|es| - 1], k);
    }
  }

  lemma RequestKeyStep(st: Store, e: Event, k: Key)
    requires WellKeyed(st) && Clean(e) && Plain(k) && k.stat == REQUESTS && k.version == AGGREGATE
    ensures Print(k) in After(st, e) <==>
            match e
            case Request(n, t, p) => (n, t, p) == (k.node, k.rtype, k.pod) || Print(k) in st
            case Clear(f) => !Contains(Print(k), f) && Print(k) in st
            case Restart => false
            case _ => Print(k) in st
  {
    match e
    case Request(n, t, p) =>
      var a := Key(n, t, AGGREGATE, p, REQUESTS);
      if a != k { PutElsewhere(st, a, Int(Counter(st, a) + 1), k); }
    case Response(n, t, v, p, x) =>
      DistinctStats(x);
      PutElsewhere(st, Key(n, t, v, p, NONCE + x), Text(""), k);
    case Nack(n, t, p, x) => NackSparesRequests(st, n, t, p, x, k);
    case Ack(n, t, v, p, now) => AckSparesRequests(st, n, t, v, p, now, k);
    case Clear(f) =>
    case Expire(s) => ExpirySparesRequests(st, s, k);
    case Restart =>
  }

  lemma NackSparesRequests(st: Store, n: string, t: string, p: string, x: string, k: Key)
    requires WellKeyed(st) && Clean(Nack(n, t, p, x)) && Plain(k) && k.stat == REQUESTS
    ensures Print(k) in After(st, Nack(n, t, p, x)) <==> Print(k) in st
  {
    if NackVersion(st, n, t, p, x).Some? {
      DistinctStats("");
      var w := NackVersionKey(st, n, t, p, x);
      RequestKeyApart(st, Key(n, t, w.version, p, NACKS), Key(n, t, AGGREGATE, p, NACKS), k);
    }
  }

  lemma AckSparesRequests(st: Store, n: string, t: string, v: string, p: string, now: int, k: Key)
    requires Clean(Ack(n, t, v, p, now)) && Plain(k) && k.stat == REQUESTS
    ensures Print(k) in After(st, Ack(n, t, v, p, now)) <==> Print(k) in st
  {
    DistinctStats("");
    RequestKeyApart(st, Key(n, t, v, p, ACKS), Key(n, t, AGGREGATE, p, ACKS), k);
    PutElsewhere(Increment(Increment(st, Key(n, t, v, p, ACKS), 1), Key(n, t, AGGREGATE, p, ACKS), 1),
                 Key(n, t, v, p, INFO), Int(now), k);
  }

  lemma ExpirySparesRequests(st: Store, s: string, k: Key)
    requires WellKeyed(st) && Plain(k) && k.stat == REQUESTS
    ensures Print(k) in After(st, Expire(s)) <==> Print(k) in st
  {
    CountingIsNoNonce(REQUESTS);
    ParsePrint(k);
    assert s in st ==> WellKept(s, st[s]);
  }

  lemma RequestKeyApart(st: Store, a: Key, b: Key, k: Key)
    requires Plain(a) && Plain(b) && Plain(k) && a != k && b != k
    ensures Print(k) in Increment(Increment(st, a, 1), b, 1) <==> Print(k) in st
  {
    PutElsewhere(st, a, Int(Counter(st, a) + 1), k);
    PutElsewhere(Increment(st, a, 1), b, Int(Counter(Increment(st, a, 1), b) + 1), k);
  }

  /** A pod is on record for a type exactly when the history says it asked for it. */
  lemma {:induction false} AskedIffOnRecord(es: seq<Event>, node: string, rtype: string, pod: string)
    requires CleanRun(es) && ColonFree(node) && ColonFree(rtype) && ColonFree(pod)
    ensures Asked(es, node, rtype, pod) <==> Print(Key(node, rtype, AGGREGATE, pod, REQUESTS)) in Run(es)
  {
    if es != [] {
      RunWellKeyed(es[..|es| - 1]);
      AskedIffOnRecord(es[..|es| - 1], node, rtype, pod);
      RequestKeyStep(Run(es[..|es| - 1]), es[|es| - 1], Key(node, rtype, AGGREGATE, pod, REQUESTS));
    }
  }

  lemma {:induction false} AskedIsColonFree(es: seq<Event>, node: string, rtype: string, pod: string)
    requires CleanRun(es) && Asked(es, node, rtype, pod)
    ensures ColonFree(node) && ColonFree(rtype) && ColonFree(pod)
  {
    if Asked(es[..|es| - 1], node, rtype, pod) {
      AskedIsColonFree(es[..|es| - 1], node, rtype, pod);
    } else {
      assert Clean(es[|es| - 1]);
    }
  }

  /** The substring lookup never misses a pod that is on record. */
  lemma OnRecordIsSubscribed(st: Store, node: string, rtype: string, pod: string)
    requires ColonFree(node) && ColonFree(rtype) && ColonFree(pod)
    requires Print(Key(node, rtype, AGGREGATE, pod, REQUESTS)) in st
    ensures pod in Subscribed(st, node, rtype)
  {
    var k := Key(node, rtype, AGGREGATE, pod, REQUESTS);
    PrintContainsFields(k);
    ParsePrint(k);
    assert Print(k) in Filtered(st, SubscriptionFilters(node, rtype));
    assert PodOf(Print(k)) == pod;
  }

  lemma AskedIsSubscribed(es: seq<Event>, node: string, rtype: string, pod: string)
    requires CleanRun(es) && Asked(es, node, rtype, pod)
    ensures pod in Subscribed(Run(es), node, rtype)
  {
    AskedIsColonFree(es, node, rtype, pod);
    AskedIffOnRecord(es, node, rtype, pod);
    OnRecordIsSubscribed(Run(es), node, rtype, pod);
  }

  lemma SubscribedIsColonFree(st: Store, node: string, rtype: string, pod: string)
    requires WellKeyed(st) && pod in Subscribed(st, node, rtype)
    ensures ColonFree(pod)
  {
  }

  lemma SubscribersReject(es: seq<Event>, node: string, rtype: string, version: string)
    requires CleanRun(es) && ColonFree(node) && ColonFree(rtype) && ColonFree(version) && version != AGGREGATE
    requires Fraction(Run(es), node, rtype, version) == 1.0
    ensures Subscribed(Run(es), node, rtype) != {}
    ensures forall pod :: pod in Subscribed(Run(es), node, rtype) ==>
              Charged(es, Key(node, rtype, version, pod, NACKS)) >= 5
  {
    var st := Run(es);
    RunWellKeyed(es);
    FractionMeaning(st, node, rtype, version);
    forall pod | pod in Subscribed(st, node, rtype)
      ensures Charged(es, Key(node, rtype, version, pod, NACKS)) >= 5
    {
      SubscribedIsColonFree(st, node, rtype, pod);
      CounterBackedByHistory(es, Key(node, rtype, version, pod, NACKS));
    }
  }

  /**
   When rejections reach the taint threshold for a type, some pod really rejected that version five times and
   so did every pod that asked for that type, since its statistics were last cleared. The lookups
   over-approximate; the conclusion does not.
   */
  lemma TaintBackedByRejections(es: seq<Event>, node: string, rtype: string, version: string)
    requires CleanRun(es) && ColonFree(node) && ColonFree(rtype) && ColonFree(version) && version != AGGREGATE
    requires Fraction(Run(es), node, rtype, version) == 1.0
    ensures exists pod ::
              Charged(es, Key(node, rtype, version, pod, NACKS)) >= 5
    ensures forall pod :: Asked(es, node, rtype, pod) ==>
              Charged(es, Key(node, rtype, version, pod, NACKS)) >= 5
  {
    SubscribersReject(es, node, rtype, version);
    var some :| some in Subscribed(Run(es), node, rtype);
    forall pod | Asked(es, node, rtype, pod) ensures pod in Subscribed(Run(es), node, rtype) {
      AskedIsSubscribed(es, node, rtype, pod);
    }
  }
}

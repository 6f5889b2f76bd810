/**
 When self-healing triggers: exactly which histories of stream events make a
 revision tainted by its next reconcile, and that a handful of them always can.
 */
module Healing {
  import opened Wrappers
  import opened Strings
  import opened StatKeys
  import opened Stats
  import opened StatRuns
  import opened Snapshots
  import opened Revisions
  import opened RevisionController

  // ---------------------------------------------------------------------
  // Subscriptions, exactly

  /** The keys that contain the node, the type and the name of the request counter are request keys of that node
      and type. */
  ghost predicate RequestsApart(st: Store, node: string, rtype: string) {
    forall s :: s in st && Contains(s, REQUESTS) && Contains(s, node) && Contains(s, rtype) ==>
      Parse(s).Some? && Parse(s).value == Key(node, rtype, AGGREGATE, Parse(s).value.pod, REQUESTS)
  }

  /** A lookup of subscribers finds exactly the keys that contain the three. */
  lemma SubscriptionLookup(st: Store, node: string, rtype: string, s: string)
    ensures s in Filtered(st, SubscriptionFilters(node, rtype)) <==>
            s in st && Contains(s, REQUESTS) && Contains(s, node) && Contains(s, rtype)
  {
    var fs := SubscriptionFilters(node, rtype);
    ContainsNothing(s);
    assert fs[0] == REQUESTS;
    assert node != "" ==> fs[1] == node;
    assert rtype != "" ==> fs[|fs| - 1] == rtype;
    assert forall i :: 0 <= i < |fs| ==> fs[i] == REQUESTS || fs[i] == node || fs[i] == rtype;
  }

  lemma ContainsNothing(s: string)
    ensures Contains(s, "")
  {
    assert s[0..0] == "";
    ContainsAt(s, "", 0);
  }

  /** Then the subscribed pods are those that asked for the type since they were last cleared. */
  lemma SubscribedIffAsked(es: seq<Event>, node: string, rtype: string, pod: string)
    requires CleanRun(es) && ColonFree(node) && ColonFree(rtype) && RequestsApart(Run(es), node, rtype)
    ensures pod in Subscribed(Run(es), node, rtype) <==> Asked(es, node, rtype, pod)
  {
    if pod in Subscribed(Run(es), node, rtype) {
      var s :| s in Filtered(Run(es), SubscriptionFilters(node, rtype)) && pod == PodOf(s);
      SubscriptionLookup(Run(es), node, rtype, s);
      RunWellKeyed(es);
      assert WellKept(s, Run(es)[s]);
      AskedIffOnRecord(es, node, rtype, pod);
    }
    if Asked(es, node, rtype, pod) {
      AskedIsSubscribed(es, node, rtype, pod);
    }
  }

  /** Some pod asked for the type, and every pod that did rejected the version at least five times. */
  ghost predicate RejectedByAskers(es: seq<Event>, node: string, rtype: string, version: string) {
    && (exists pod :: Asked(es, node, rtype, pod))
    && (forall pod :: Asked(es, node, rtype, pod) ==> Charged(es, Key(node, rtype, version, pod, NACKS)) >= 5)
  }

  /** The failing fraction is 1 if and only if the history says so. */
  lemma FractionIff(es: seq<Event>, node: string, rtype: string, version: string)
    requires CleanRun(es) && ColonFree(node) && ColonFree(rtype) && RequestsApart(Run(es), node, rtype)
    requires ColonFree(version) && version != AGGREGATE
    ensures Fraction(Run(es), node, rtype, version) == 1.0 <==> RejectedByAskers(es, node, rtype, version)
  {
    var st := Run(es);
    FractionMeaning(st, node, rtype, version);
    forall pod ensures pod in Subscribed(st, node, rtype) <==> Asked(es, node, rtype, pod) {
      SubscribedIffAsked(es, node, rtype, pod);
    }
    forall pod | Asked(es, node, rtype, pod)
      ensures Counter(st, Key(node, rtype, version, pod, NACKS)) == Charged(es, Key(node, rtype, version, pod, NACKS))
    {
      AskedIsColonFree(es, node, rtype, pod);
      CounterBackedByHistory(es, Key(node, rtype, version, pod, NACKS));
    }
  }

  /**
   Self-healing triggers exactly when it should: a reconcile that loads an untainted revision, and whose status
   update goes through, taints it if and only if, for some type, some pod asked for the type and every pod that
   did rejected the version in the cache five times.
   */
  lemma TaintedIff(es: seq<Event>, hash: Hasher, urls: Urls, w: World, r: Revision, load: Loading,
                   before: Option<Snapshot>, cache: Option<Snapshot>, node: string, now: nat, patchOk: bool)
    requires CleanRun(es) && ColonFree(node) && CleanNames(hash, urls)
    requires forall t :: Served(t) ==> RequestsApart(Run(es), node, urls(t))
    requires load.Loaded? && LoadingFits(hash, w, r, load, before, cache) && RevisionTainted !in r.conditions
    ensures Tainted(RevisionAfter(r, load, urls, node, true, Run(es), now, patchOk, true)) <==>
            exists t :: Served(t) && RejectedByAskers(es, node, urls(t), GetVersion(cache.value, t))
  {
    RejectionTaints(r, load, urls, node, Run(es), now, patchOk);
    forall t | Served(t)
      ensures TypeRejected(Run(es), urls, node, load.vt, t) <==>
              RejectedByAskers(es, node, urls(t), GetVersion(cache.value, t))
    {
      FractionIff(es, node, urls(t), GetVersion(cache.value, t));
    }
  }

  /** What the statistics say decides whether a loaded revision becomes tainted. */
  lemma RejectionTaints(r: Revision, load: Loading, urls: Urls, node: string, st: Store, now: nat, patchOk: bool)
    requires load.Loaded? && Published(r) && RevisionTainted !in r.conditions
    ensures var n := RevisionAfter(r, load, urls, node, true, st, now, patchOk, true);
            Tainted(n) <==> Rejected(st, urls, node, load.vt)
  {
  }

  // ---------------------------------------------------------------------
  // Seven events are enough

  const POD := "p"

  function RequestKey(node: string, rtype: string): (k: Key) {
    Key(node, rtype, AGGREGATE, POD, REQUESTS)
  }

  function NackKey(node: string, rtype: string, version: string): (k: Key) {
    Key(node, rtype, version, POD, NACKS)
  }

  /** A nonce longer than any of the counters' keys, so that none of them contains it. */
  function LongNonce(node: string, rtype: string, version: string): (x: string)
    ensures |x| == |Print(RequestKey(node, rtype))| + |Print(NackKey(node, rtype, version))|
                   + |Print(NackKey(node, rtype, AGGREGATE))|
  {
    seq(|Print(RequestKey(node, rtype))| + |Print(NackKey(node, rtype, version))|
        + |Print(NackKey(node, rtype, AGGREGATE))|, i => 'x')
  }

  function NonceKey(node: string, rtype: string, version: string): (k: Key) {
    Key(node, rtype, version, POD, NONCE + LongNonce(node, rtype, version))
  }

  /** One client asks for the type, is sent the version and rejects it `m` times. */
  function Rejecting(node: string, rtype: string, version: string, m: nat): (es: seq<Event>) {
    var x := LongNonce(node, rtype, version);
    if m == 0 then [Request(node, rtype, POD), Response(node, rtype, version, POD, x)]
    else Rejecting(node, rtype, version, m - 1) + [Nack(node, rtype, POD, x)]
  }

  ghost predicate OfOneClient(st: Store, node: string, rtype: string, version: string, m: nat) {
    var req, non := Print(RequestKey(node, rtype)), Print(NonceKey(node, rtype, version));
    var one, all := Print(NackKey(node, rtype, version)), Print(NackKey(node, rtype, AGGREGATE));
    && st.Keys <= {req, non, one, all} && req in st && non in st
    && Counter(st, NackKey(node, rtype, version)) == m
  }

  /** The key of the nonce is longer than the others. */
  lemma NonceKeyIsLong(node: string, rtype: string, version: string)
    ensures var x, non := NONCE + LongNonce(node, rtype, version), Print(NonceKey(node, rtype, version));
            && |non| >= |x| && |x| > |Print(RequestKey(node, rtype))|
            && |x| > |Print(NackKey(node, rtype, version))| && |x| > |Print(NackKey(node, rtype, AGGREGATE))|
  {
    PrintShape(NonceKey(node, rtype, version));
  }

  /** A nonce longer than the other keys of the store is found in its own key only. */
  lemma LongNonceMatch(st: Store, k: Key, x: string)
    requires Plain(k) && k.stat == NONCE + x && Print(k) in st
    requires forall s :: s in st ==> s == Print(k) || |s| < |NONCE + x|
    ensures NackVersion(st, k.node, k.rtype, k.pod, x) == Some(k.version)
  {
    var fs := NonceFilters(k.node, k.rtype, k.pod, x);
    PrintContainsFields(k);
    assert MatchesAll(Print(k), fs);
    forall s | s in st && |s| < |NONCE + x| ensures !MatchesAll(s, fs) {
      assert !Contains(s, fs[3]);
    }
    var keys := Filtered(st, fs).Keys;
    assert keys == {Print(k)};
    ParsePrint(k);
  }

  lemma NackFindsTheNonce(st: Store, node: string, rtype: string, version: string, m: nat)
    requires OfOneClient(st, node, rtype, version, m) && Plain(NackKey(node, rtype, version))
    ensures NackVersion(st, node, rtype, POD, LongNonce(node, rtype, version)) == Some(version)
  {
    NonceKeyIsLong(node, rtype, version);
    LongNonceMatch(st, NonceKey(node, rtype, version), LongNonce(node, rtype, version));
  }

  lemma OneMoreNack(st: Store, node: string, rtype: string, version: string, m: nat)
    requires OfOneClient(st, node, rtype, version, m) && Plain(NackKey(node, rtype, version)) && version != AGGREGATE
    ensures OfOneClient(After(st, Nack(node, rtype, POD, LongNonce(node, rtype, version))), node, rtype, version, m + 1)
  {
    NackFindsTheNonce(st, node, rtype, version, m);
    CountsMove(st, node, rtype, version, POD, NACKS, NackKey(node, rtype, version));
  }

  lemma FirstTwo(node: string, rtype: string, version: string)
    requires Plain(NackKey(node, rtype, version))
    ensures OfOneClient(Run(Rejecting(node, rtype, version, 0)), node, rtype, version, 0)
  {
    var a, b := Request(node, rtype, POD), Response(node, rtype, version, POD, LongNonce(node, rtype, version));
    var es := Rejecting(node, rtype, version, 0);
    assert es == [a, b] && es[..1] == [a] && [a][..0] == [];
    assert Run([a]) == After(map[], a) && Run(es) == After(Run([a]), b);
    NonceKeyIsLong(node, rtype, version);
    DistinctStats("");
    if Print(NackKey(node, rtype, version)) == Print(RequestKey(node, rtype)) {
      PrintInjective(NackKey(node, rtype, version), RequestKey(node, rtype));
    }
  }

  lemma {:induction false} RejectingStore(node: string, rtype: string, version: string, m: nat)
    requires Plain(NackKey(node, rtype, version)) && version != AGGREGATE
    ensures OfOneClient(Run(Rejecting(node, rtype, version, m)), node, rtype, version, m)
  {
    if m == 0 {
      FirstTwo(node, rtype, version);
    } else {
      RejectingStore(node, rtype, version, m - 1);
      var es := Rejecting(node, rtype, version, m);
      assert es[..|es| - 1] == Rejecting(node, rtype, version, m - 1);
      OneMoreNack(Run(es[..|es| - 1]), node, rtype, version, m - 1);
    }
  }

  /** After these events, in an empty store, every subscriber rejects the version. */
  lemma RejectingIsEnough(node: string, rtype: string, version: string)
    requires ColonFree(node) && ColonFree(rtype) && ColonFree(version) && version != AGGREGATE
    ensures Fraction(Run(Rejecting(node, rtype, version, 5)), node, rtype, version) == 1.0
  {
    var st := Run(Rejecting(node, rtype, version, 5));
    RejectingStore(node, rtype, version, 5);
    OnRecordIsSubscribed(st, node, rtype, POD);
    OnePod(st, node, rtype, version, 5);
    assert Subscribed(st, node, rtype) == {POD};
    FractionMeaning(st, node, rtype, version);
  }

  lemma OnePod(st: Store, node: string, rtype: string, version: string, m: nat)
    requires OfOneClient(st, node, rtype, version, m) && Plain(NackKey(node, rtype, version))
    ensures forall s :: s in st ==> PodOf(s) == POD
  {
    ParsePrint(RequestKey(node, rtype));
    ParsePrint(NonceKey(node, rtype, version));
    ParsePrint(NackKey(node, rtype, version));
    ParsePrint(NackKey(node, rtype, AGGREGATE));
  }

  /** A restart wipes out what was before it. */
  lemma {:induction false} RunAfterRestart(h: seq<Event>, es: seq<Event>)
    ensures Run(h + [Restart] + es) == Run(es)
  {
    var all := h + [Restart] + es;
    if es == [] {
      assert all[|all| - 1] == Restart;
    } else {
      var init := es[..|es| - 1];
      RunAfterRestart(h, init);
      assert all[..|all| - 1] == h + [Restart] + init && all[|all| - 1] == es[|es| - 1];
    }
  }

  lemma {:induction false} RejectingIsNoRestart(node: string, rtype: string, version: string, m: nat)
    ensures forall i :: 0 <= i < |Rejecting(node, rtype, version, m)| ==>
              !Rejecting(node, rtype, version, m)[i].Restart?
  {
    if m > 0 {
      RejectingIsNoRestart(node, rtype, version, m - 1);
    }
  }

  /** An acceptance neither adds a subscriber nor takes back a rejection, so it never changes the verdict. */
  lemma AcceptanceChangesNothing(es: seq<Event>, e: Event, node: string, rtype: string, version: string)
    requires e.Ack?
    ensures forall pod :: Asked(es + [e], node, rtype, pod) <==> Asked(es, node, rtype, pod)
    ensures forall k :: Charged(es + [e], k) == Charged(es, k)
    ensures RejectedByAskers(es + [e], node, rtype, version) <==> RejectedByAskers(es, node, rtype, version)
  {
    var later := es + [e];
    assert later[..|es|] == es && later[|es|] == e;
    assert forall pod :: Asked(later, node, rtype, pod) <==> Asked(es, node, rtype, pod);
    assert forall k :: Charged(later, k) == Charged(es, k);
    if exists pod :: Asked(es, node, rtype, pod) {
      var pod :| Asked(es, node, rtype, pod);
      assert Asked(later, node, rtype, pod);
    }
  }
}

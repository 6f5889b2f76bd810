/**
 The xDS stream callbacks (pkg/discoveryservice/xdss/v3/callbacks.go) and the pod
 deletion hook (stats/garbage_collector.go): each is one event of the history.
 */
module Callbacks {
  import opened Wrappers
  import opened Strings
  import opened StatKeys
  import opened Stats
  import opened StatRuns
  import opened Healing

  datatype DiscoveryRequest = DiscoveryRequest(
    node: string, typeUrl: string, podName: Option<string>,
    responseNonce: string, errorDetail: bool, versionInfo: string)

  datatype DiscoveryResponse = DiscoveryResponse(typeUrl: string, versionInfo: string, nonce: string)

  const UNKNOWN_POD := "unknown"

  /** A request without a nonce subscribes; one with a nonce rejects or accepts the response it answers. */
  function RequestEvent(req: DiscoveryRequest, now: int): (e: Event) {
    var pod := if req.podName.Some? then req.podName.value else UNKNOWN_POD;
    if req.responseNonce == "" then Request(req.node, req.typeUrl, pod)
    else if req.errorDetail then Nack(req.node, req.typeUrl, pod, req.responseNonce)
    else Ack(req.node, req.typeUrl, req.versionInfo, pod, now)
  }

  // ---------------------------------------------------------------------
  // What an event does to the store, key by key

  function CountAt(st: Store, s: string): (n: int) {
    if s in st && st[s].Int? then st[s].n else 0
  }

  /** Nothing but the given keys has changed. */
  ghost predicate OnlyAt(before: Store, after: Store, keys: set<string>) {
    forall s :: s !in keys ==> (s in before <==> s in after) && (s in before ==> before[s] == after[s])
  }

  /** The counter has risen by one. */
  ghost predicate Rises(before: Store, after: Store, s: string, n: nat) {
    s in after && after[s] == Int(CountAt(before, s) + n)
  }

  /** The counters of a version and of all versions have risen by one each. */
  ghost predicate BothRise(before: Store, after: Store, node: string, rtype: string, version: string, pod: string,
                           stat: string) {
    var one, all := Print(Key(node, rtype, version, pod, stat)), Print(Key(node, rtype, "*", pod, stat));
    if one == all then Rises(before, after, one, 2) else Rises(before, after, one, 1) && Rises(before, after, all, 1)
  }

  function PodNameOf(req: DiscoveryRequest): (pod: string)
    ensures req.podName == Some(pod) || (req.podName.None? && pod == "unknown")
  {
    if req.podName.Some? then req.podName.value else UNKNOWN_POD
  }

  /** The pod is put on record for the type, and nothing else changes. */
  ghost predicate Subscribes(before: Store, after: Store, req: DiscoveryRequest) {
    var k := Print(Key(req.node, req.typeUrl, "*", PodNameOf(req), REQUESTS));
    Rises(before, after, k, 1) && OnlyAt(before, after, {k})
  }

  /** The one key on record that the rejection can mean. */
  ghost predicate SoleMatch(st: Store, node: string, rtype: string, pod: string, nonce: string, s: string) {
    && NamesNonce(st, node, rtype, pod, nonce, s)
    && forall other :: NamesNonce(st, node, rtype, pod, nonce, other) ==> other == s
  }

  ghost predicate NamesNonce(st: Store, node: string, rtype: string, pod: string, nonce: string, s: string) {
    s in st && Contains(s, node) && Contains(s, rtype) && Contains(s, pod) && Contains(s, "nonce:" + nonce)
  }

  /** If exactly one key on record names the client and the nonce, the version of that key is charged, and otherwise
      none; no acceptance counter moves. */
  ghost predicate Rejects(before: Store, after: Store, req: DiscoveryRequest) {
    var pod := PodNameOf(req);
    && ((forall s :: !SoleMatch(before, req.node, req.typeUrl, pod, req.responseNonce, s)) ==> after == before)
    && forall s :: SoleMatch(before, req.node, req.typeUrl, pod, req.responseNonce, s) ==>
         && BothRise(before, after, req.node, req.typeUrl, VersionOf(s), pod, NACKS)
         && OnlyAt(before, after, {Print(Key(req.node, req.typeUrl, VersionOf(s), pod, NACKS)),
                                   Print(Key(req.node, req.typeUrl, "*", pod, NACKS))})
  }

  /** The rejection is charged to the version of the sole match, if there is one. */
  lemma ChargedToSoleMatch(st: Store, node: string, rtype: string, pod: string, nonce: string)
    ensures var v := NackVersion(st, node, rtype, pod, nonce);
            && (v.Some? <==> exists s :: SoleMatch(st, node, rtype, pod, nonce, s))
            && forall s :: SoleMatch(st, node, rtype, pod, nonce, s) ==> v == Some(VersionOf(s))
  {
    var keys := Filtered(st, NonceFilters(node, rtype, pod, nonce)).Keys;
    forall s ensures s in keys <==> NamesNonce(st, node, rtype, pod, nonce, s) {
      FoundByNonce(st, node, rtype, pod, nonce, s);
    }
    if |keys| == 1 {
      var k :| k in keys && NackVersion(st, node, rtype, pod, nonce) == Some(VersionOf(k));
      EqualSize({k}, keys);
      assert SoleMatch(st, node, rtype, pod, nonce, k);
    }
    forall s | SoleMatch(st, node, rtype, pod, nonce, s) ensures |keys| == 1 {
      assert keys == {s};
    }
  }

  lemma FoundByNonce(st: Store, node: string, rtype: string, pod: string, nonce: string, s: string)
    ensures s in Filtered(st, NonceFilters(node, rtype, pod, nonce)) <==> NamesNonce(st, node, rtype, pod, nonce, s)
  {
    var fs := NonceFilters(node, rtype, pod, nonce);
    assert |fs| == 4 && fs[0] == node && fs[1] == rtype && fs[2] == pod && fs[3] == "nonce:" + nonce;
  }

  /** The version the client names is accepted at this instant; no rejection counter moves. */
  ghost predicate Accepts(before: Store, after: Store, req: DiscoveryRequest, now: int) {
    var pod, v := PodNameOf(req), req.versionInfo;
    var info := Print(Key(req.node, req.typeUrl, v, pod, INFO));
    && BothRise(before, after, req.node, req.typeUrl, v, pod, ACKS)
    && info in after && after[info] == Int(now)
    && OnlyAt(before, after, {Print(Key(req.node, req.typeUrl, v, pod, ACKS)),
                              Print(Key(req.node, req.typeUrl, "*", pod, ACKS)), info})
  }

  /** Two keys that differ in the stat alone print differently. */
  lemma StatsApart(k: Key, a: string, b: string)
    requires a != b
    ensures Print(k.(stat := a)) != Print(k.(stat := b))
  {
    PrintShape(k.(stat := a));
    PrintShape(k.(stat := b));
    var left := k.node + ":" + (k.rtype + ":" + (k.version + ":" + (k.pod + ":")));
    assert Print(k.(stat := a)) == left + a && Print(k.(stat := b)) == left + b;
    assert (left + a)[|left|..] == a && (left + b)[|left|..] == b;
  }

  /** A printed key ends in its stat, after a colon. */
  lemma LastFields(k: Key)
    ensures var s := Print(k);
            |s| > |k.stat| && s[|s| - |k.stat| - 1] == ':' && s[|s| - |k.stat|..] == k.stat
  {
    PrintShape(k);
  }

  lemma RequestSubscribes(st: Store, req: DiscoveryRequest, now: int)
    requires req.responseNonce == ""
    ensures Subscribes(st, After(st, RequestEvent(req, now)), req)
  {
  }

  lemma RequestRejects(st: Store, req: DiscoveryRequest, now: int)
    requires req.responseNonce != "" && req.errorDetail
    ensures Rejects(st, After(st, RequestEvent(req, now)), req)
  {
    ChargedToSoleMatch(st, req.node, req.typeUrl, PodNameOf(req), req.responseNonce);
  }

  lemma RequestAccepts(st: Store, req: DiscoveryRequest, now: int)
    requires req.responseNonce != "" && !req.errorDetail
    ensures Accepts(st, After(st, RequestEvent(req, now)), req, now)
  {
    DistinctStats("");
    InfoApart(req.node, req.typeUrl, req.versionInfo, PodNameOf(req));
  }

  /** The key of the timestamp is not one of the counters'. */
  lemma InfoApart(node: string, rtype: string, version: string, pod: string)
    ensures Print(Key(node, rtype, version, pod, INFO)) != Print(Key(node, rtype, version, pod, ACKS))
    ensures Print(Key(node, rtype, version, pod, INFO)) != Print(Key(node, rtype, "*", pod, ACKS))
  {
    var i, c := Print(Key(node, rtype, version, pod, INFO)), Print(Key(node, rtype, "*", pod, ACKS));
    DistinctStats("");
    StatsApart(Key(node, rtype, version, pod, ""), INFO, ACKS);
    LastFields(Key(node, rtype, version, pod, INFO));
    LastFields(Key(node, rtype, "*", pod, ACKS));
    assert INFO[|INFO| - 1] == 'o' && ACKS[|ACKS| - 1] == 'r';
  }

  class StreamCallbacks {
    const stats: StatsCache

    constructor (stats: StatsCache)
      ensures this.stats == stats
    {
      this.stats := stats;
    }

    method OnStreamRequest(req: DiscoveryRequest, now: int)
      requires stats.Valid()
      modifies stats
      ensures stats.Valid() && stats.store == After(old(stats.store), RequestEvent(req, now))
      ensures req.responseNonce == "" ==> Subscribes(old(stats.store), stats.store, req)
      ensures req.responseNonce != "" && req.errorDetail ==> Rejects(old(stats.store), stats.store, req)
      ensures req.responseNonce != "" && !req.errorDetail ==> Accepts(old(stats.store), stats.store, req, now)
    {
      ghost var before := stats.store;
      var podName := UNKNOWN_POD;
      if req.podName.Some? {
        podName := req.podName.value;
      }
      if req.responseNonce != "" {
        if req.errorDetail {
          var failures := stats.ReportNACK(req.node, req.typeUrl, podName, req.responseNonce);
          RequestRejects(before, req, now);
        } else {
          stats.ReportACK(req.node, req.typeUrl, req.versionInfo, podName, now);
          RequestAccepts(before, req, now);
        }
      } else {
        stats.ReportRequest(req.node, req.typeUrl, podName);
        RequestSubscribes(before, req, now);
      }
    }

    /** A response to a client that gives no pod name is not tracked. */
    method OnStreamResponse(req: DiscoveryRequest, rsp: DiscoveryResponse)
      requires stats.Valid()
      modifies stats
      ensures stats.Valid()
      ensures stats.store ==
              match req.podName
              case None => old(stats.store)
              case Some(pod) =>
                After(old(stats.store), Response(req.node, rsp.typeUrl, rsp.versionInfo, pod, rsp.nonce))
      ensures req.podName.Some? ==>
                var k := Print(Key(req.node, rsp.typeUrl, rsp.versionInfo, req.podName.value, "nonce:" + rsp.nonce));
                k in stats.store && OnlyAt(old(stats.store), stats.store, {k})
    {
      if req.podName.Some? {
        stats.WriteResponseNonce(req.node, rsp.typeUrl, rsp.versionInfo, req.podName.value, rsp.nonce);
      }
    }

    method OnPodDeleted(name: string)
      requires stats.Valid()
      modifies stats
      ensures stats.Valid() && stats.store == After(old(stats.store), Clear(name))
      ensures OnlyAt(old(stats.store), stats.store, set k | k in old(stats.store) && Contains(k, name))
      ensures forall k :: k in stats.store ==> !Contains(k, name)
    {
      stats.DeleteKeysByFilter(name);
    }
  }

  // ---------------------------------------------------------------------
  // Requests and self-healing

  /** The store after the same request came `m` times. */
  ghost function Answered(st: Store, req: DiscoveryRequest, m: nat): (r: Store) {
    if m == 0 then st else After(Answered(st, req, m - 1), RequestEvent(req, 0))
  }

  /** The key of the rejections a pod has counted against a version. */
  function RejectionsKey(req: DiscoveryRequest, version: string): (s: string) {
    Print(Key(req.node, req.typeUrl, version, PodNameOf(req), NACKS))
  }

  /** The request rejects the response that the one key `s` is about, and its own counters are no match. */
  ghost predicate RejectsResponse(st: Store, req: DiscoveryRequest, s: string) {
    && req.responseNonce != "" && req.errorDetail
    && SoleMatch(st, req.node, req.typeUrl, PodNameOf(req), req.responseNonce, s)
    && !Contains(RejectionsKey(req, VersionOf(s)), "nonce:" + req.responseNonce)
    && !Contains(RejectionsKey(req, "*"), "nonce:" + req.responseNonce)
  }

  lemma RejectionCounts(st: Store, req: DiscoveryRequest, s: string)
    requires RejectsResponse(st, req, s)
    ensures var next, one := After(st, RequestEvent(req, 0)), RejectionsKey(req, VersionOf(s));
            && RejectsResponse(next, req, s) && CountAt(next, one) >= CountAt(st, one) + 1
            && OnlyAt(st, next, {one, RejectionsKey(req, "*")})
  {
    RequestRejects(st, req, 0);
    var next := After(st, RequestEvent(req, 0));
    forall other | NamesNonce(next, req.node, req.typeUrl, PodNameOf(req), req.responseNonce, other)
      ensures other == s
    {
      assert NamesNonce(st, req.node, req.typeUrl, PodNameOf(req), req.responseNonce, other);
    }
  }

  /** Every one of the requests counts against the version that was sent, and changes nothing else. */
  lemma {:induction false} RejectionsAddUp(st: Store, req: DiscoveryRequest, s: string, m: nat)
    requires RejectsResponse(st, req, s)
    ensures var later, one := Answered(st, req, m), RejectionsKey(req, VersionOf(s));
            && RejectsResponse(later, req, s) && CountAt(later, one) >= CountAt(st, one) + m
            && OnlyAt(st, later, {one, RejectionsKey(req, "*")})
  {
    if m > 0 {
      RejectionsAddUp(st, req, s, m - 1);
      RejectionCounts(Answered(st, req, m - 1), req, s);
    }
  }

  /** The keys that put a pod on record as a subscriber. */
  ghost predicate OnSubscription(st: Store, node: string, rtype: string, k: string) {
    k in st && Contains(k, REQUESTS) && Contains(k, node) && Contains(k, rtype)
  }

  /** Whatever the store, five rejections by the one subscriber make the fraction one. */
  lemma FiveRejectionsFail(st: Store, req: DiscoveryRequest, s: string, k: string)
    requires RejectsResponse(st, req, s) && CountAt(st, RejectionsKey(req, VersionOf(s))) >= 0
    requires !Contains(RejectionsKey(req, VersionOf(s)), REQUESTS) && !Contains(RejectionsKey(req, "*"), REQUESTS)
    requires OnSubscription(st, req.node, req.typeUrl, k)
    requires forall k' :: OnSubscription(st, req.node, req.typeUrl, k') ==> PodOf(k') == PodNameOf(req)
    ensures Fraction(Answered(st, req, 5), req.node, req.typeUrl, VersionOf(s)) == 1.0
  {
    var later := Answered(st, req, 5);
    RejectionsAddUp(st, req, s, 5);
    OneSubscriber(st, later, req, s, k);
    FractionMeaning(later, req.node, req.typeUrl, VersionOf(s));
  }

  lemma OneSubscriber(st: Store, later: Store, req: DiscoveryRequest, s: string, k: string)
    requires OnlyAt(st, later, {RejectionsKey(req, VersionOf(s)), RejectionsKey(req, "*")})
    requires !Contains(RejectionsKey(req, VersionOf(s)), REQUESTS) && !Contains(RejectionsKey(req, "*"), REQUESTS)
    requires OnSubscription(st, req.node, req.typeUrl, k)
    requires forall k' :: OnSubscription(st, req.node, req.typeUrl, k') ==> PodOf(k') == PodNameOf(req)
    ensures Subscribed(later, req.node, req.typeUrl) == {PodNameOf(req)}
  {
    forall k' ensures k' in Filtered(later, SubscriptionFilters(req.node, req.typeUrl)) <==>
                      OnSubscription(st, req.node, req.typeUrl, k')
    {
      SubscriptionLookup(later, req.node, req.typeUrl, k');
    }
    assert PodOf(k) == PodNameOf(req);
  }

  /** Requests that accept what they were sent never change the verdict, however many come. */
  lemma AcceptancesNeverTaint(es: seq<Event>, req: DiscoveryRequest, now: int, node: string, rtype: string,
                              version: string)
    requires req.responseNonce != "" && !req.errorDetail
    ensures RejectedByAskers(es + [RequestEvent(req, now)], node, rtype, version) <==>
            RejectedByAskers(es, node, rtype, version)
  {
    AcceptanceChangesNothing(es, RequestEvent(req, now), node, rtype, version);
  }

  /** The keys an acceptance writes. */
  function AcceptanceKeys(req: DiscoveryRequest): (keys: set<string>) {
    var pod, v := PodNameOf(req), req.versionInfo;
    {Print(Key(req.node, req.typeUrl, v, pod, ACKS)), Print(Key(req.node, req.typeUrl, "*", pod, ACKS)),
     Print(Key(req.node, req.typeUrl, v, pod, INFO))}
  }

  /** No rejection counter is among them, whatever the identifiers. */
  lemma RejectionsApart(k: Key, req: DiscoveryRequest)
    requires k.stat == NACKS
    ensures Print(k) !in AcceptanceKeys(req)
  {
    var pod, v := PodNameOf(req), req.versionInfo;
    LastFields(k);
    LastFields(Key(req.node, req.typeUrl, v, pod, ACKS));
    LastFields(Key(req.node, req.typeUrl, "*", pod, ACKS));
    LastFields(Key(req.node, req.typeUrl, v, pod, INFO));
    assert NACKS[|NACKS| - 12] == 'n' && (":" + ACKS)[0] == ':';
    assert NACKS[|NACKS| - 1] == 'r' && INFO[|INFO| - 1] == 'o';
  }

  /** An acceptance leaves the failing fraction of every version as it is; its keys must not pass for requests. */
  lemma AcceptanceKeepsFraction(st: Store, req: DiscoveryRequest, now: int, node: string, rtype: string,
                                version: string)
    requires req.responseNonce != "" && !req.errorDetail
    requires forall k :: k in AcceptanceKeys(req) ==> !Contains(k, REQUESTS)
    ensures Fraction(After(st, RequestEvent(req, now)), node, rtype, version) == Fraction(st, node, rtype, version)
  {
    var next := After(st, RequestEvent(req, now));
    RequestAccepts(st, req, now);
    forall k ensures k in Filtered(next, SubscriptionFilters(node, rtype)) <==>
                     k in Filtered(st, SubscriptionFilters(node, rtype))
    {
      SubscriptionLookup(st, node, rtype, k);
      SubscriptionLookup(next, node, rtype, k);
    }
    assert Subscribed(next, node, rtype) == Subscribed(st, node, rtype);
    forall p
      ensures var k := Key(node, rtype, version, p, NACKS); Counter(next, k) == Counter(st, k)
    {
      RejectionsApart(Key(node, rtype, version, p, NACKS), req);
    }
    assert Failing(next, node, rtype, version) == Failing(st, node, rtype, version);
  }
}

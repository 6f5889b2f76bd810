/**
 Renewal of discovery service certificates: the renewal window, the schedule of
 the next reconcile, and the timed safety of the two together
 (pkg/reconcilers/operator/discoveryservicecertificate/reconcile_certificate.go).
 Instants and durations are in nanoseconds.
 */
module Certificates {
  import opened Wrappers

  const SECOND := 1_000_000_000

  /** The validity of a certificate, both ends included (section 4.1.2.5 of RFC 5280). */
  datatype Certificate = Certificate(notBefore: int, notAfter: int)

  predicate ValidAt(c: Certificate, now: int) {
    c.notBefore <= now <= c.notAfter
  }

  /** Encoded certificates carry whole seconds. */
  function Issued(now: int, validFor: nat): (c: Certificate)
    ensures c.notBefore <= now < c.notBefore + SECOND && c.notAfter - c.notBefore == validFor * SECOND
  {
    var start := now - now % SECOND;
    Certificate(start, start + validFor * SECOND)
  }

  /** The one certificate in whole seconds that begins no later than now, within the second, and lasts as long as
      asked. It is valid at once, unless it was asked to last no time at all. */
  lemma IssuedMeaning(now: int, validFor: nat, c: Certificate)
    ensures c == Issued(now, validFor) <==>
            && c.notBefore % SECOND == 0 && c.notAfter % SECOND == 0 && c.notBefore <= now < c.notBefore + SECOND
            && c.notAfter - c.notBefore == validFor * SECOND
    ensures ValidAt(Issued(now, validFor), now) <==> validFor > 0 || now % SECOND == 0
  {
    var i := Issued(now, validFor);
    assert (now - now % SECOND) % SECOND == 0;
    WholeSeconds(i.notBefore, validFor);
    if c.notBefore % SECOND == 0 && c.notBefore <= now < c.notBefore + SECOND {
      SameSecond(c.notBefore, i.notBefore, now);
    }
  }

  lemma WholeSeconds(t: int, n: nat)
    requires t % SECOND == 0
    ensures (t + n * SECOND) % SECOND == 0
  {
  }

  lemma SameSecond(a: int, b: int, now: int)
    requires a % SECOND == 0 && b % SECOND == 0 && a <= now < a + SECOND && b <= now < b + SECOND
    ensures a == b
  {
  }

  /** A fifth of the certificate's duration, rounded down. */
  function Window(c: Certificate): (w: int) {
    (c.notAfter - c.notBefore) / 5
  }

  /** The instant after which the certificate is to be reissued. */
  function Boundary(c: Certificate): (t: int) {
    c.notAfter - Window(c)
  }

  /** When the controller wants to run again. */
  datatype Wake = Again | After(delay: int) | Never

  /** Of a requeue after some delay only a positive one is honoured. */
  function RequeueAfter(schedule: Option<int>): (w: Wake) {
    if schedule.Some? && schedule.value > 0 then After(schedule.value) else Never
  }

  /** A valid certificate that is trusted stays until its window opens. */
  predicate Keeps(c: Certificate, now: int, trusted: bool) {
    trusted && ValidAt(c, now) && now <= Boundary(c)
  }

  // ---------------------------------------------------------------------
  // The reconciler

  datatype Spec = Spec(validFor: nat, renewal: bool)

  /** What one reconcile meets: reads, issuing and verifying may each fail; `trusted` is the chain's verdict. */
  datatype Surroundings = Surroundings(readOk: bool, issueOk: bool, verifyOk: bool, trusted: bool)

  datatype Outcome = Requeue | Done | Failed

  class CertificateProvider {
    const validFor: nat
    var secret: Option<Certificate>

    constructor (validFor: nat, secret: Option<Certificate>)
      ensures this.validFor == validFor && this.secret == secret
    {
      this.validFor, this.secret := validFor, secret;
    }

    /** Writes a new certificate, in place of an old one if there is one. */
    method Issue(now: int, ok: bool)
      modifies this
      ensures secret == if ok then Some(Issued(now, validFor)) else old(secret)
    {
      if ok {
        secret := Some(Issued(now, validFor));
      }
    }
  }

  class CertificateReconciler {
    const provider: CertificateProvider
    const renewal: bool
    var ready: bool
    var notBefore: Option<int>
    var notAfter: Option<int>
    var schedule: Option<int>

    constructor (provider: CertificateProvider, renewal: bool)
      ensures this.provider == provider && this.renewal == renewal && fresh(this)
      ensures !ready && notBefore.None? && notAfter.None? && schedule.None?
    {
      this.provider, this.renewal := provider, renewal;
      ready, notBefore, notAfter, schedule := false, None, None, None;
    }

    method Reconcile(now: int, e: Surroundings) returns (r: Outcome)
      modifies this, provider
      ensures r.Failed? ==> provider.secret == old(provider.secret)
      ensures r.Requeue? ==> provider.secret == Some(Issued(now, provider.validFor))
      ensures r.Requeue? ==> old(provider.secret).Some? ==>
                renewal && !Keeps(old(provider.secret).value, now, e.trusted)
      ensures r.Done? ==> provider.secret == old(provider.secret) && provider.secret.Some?
      ensures r.Done? ==>
                var c := provider.secret.value;
                && notBefore == Some(c.notBefore) && notAfter == Some(c.notAfter)
                && ready == (e.trusted && ValidAt(c, now))
                && (renewal ==> Keeps(c, now, e.trusted) && schedule == Some(Boundary(c) - now))
                && (!renewal ==> schedule == if now <= c.notAfter then Some(c.notAfter - now + SECOND) else None)
      ensures r.Requeue? && old(provider.secret).Some? ==>
                var c := old(provider.secret).value;
                !(e.trusted && c.notBefore <= now <= c.notAfter) || c.notAfter - now < (c.notAfter - c.notBefore) / 5
      ensures r.Done? && renewal ==>
                var c := provider.secret.value;
                && e.trusted && c.notBefore <= now <= c.notAfter && c.notAfter - now >= (c.notAfter - c.notBefore) / 5
                && schedule == Some(c.notAfter - (c.notAfter - c.notBefore) / 5 - now)
      ensures r.Done? && !renewal ==>
                var c := provider.secret.value;
                schedule == if now <= c.notAfter then Some(c.notAfter - now + 1_000_000_000) else None
      ensures r.Failed? ==> !(e.readOk && e.issueOk && e.verifyOk)
      ensures !e.readOk || (old(provider.secret).Some? && !e.verifyOk) ==> r.Failed?
      ensures r.Requeue? ==> e.issueOk
    {
      if !e.readOk {
        return Failed;
      }
      if provider.secret.None? {
        provider.Issue(now, e.issueOk);
        return if e.issueOk then Requeue else Failed;
      }
      if !e.verifyOk {
        return Failed;
      }
      var cert := provider.secret.value;
      ready := e.trusted && ValidAt(cert, now);
      var timeToExpire := cert.notAfter - now;
      var duration := cert.notAfter - cert.notBefore;
      if renewal {
        var renewBefore := duration / 5;
        if !ready || timeToExpire < renewBefore {
          provider.Issue(now, e.issueOk);
          return if e.issueOk then Requeue else Failed;
        }
        schedule := Some(timeToExpire - renewBefore);
      } else if now <= cert.notAfter {
        schedule := Some(timeToExpire + SECOND);
      } else {
        schedule := None;
      }
      notBefore, notAfter := Some(cert.notBefore), Some(cert.notAfter);
      return Done;
    }
  }

  /** What a reconcile without failures makes of the stored certificate, and when the next one is due. */
  function Renewed(secret: Option<Certificate>, now: int, spec: Spec, trusted: bool): (n: (Certificate, Wake)) {
    match secret
    case None => (Issued(now, spec.validFor), Again)
    case Some(c) =>
      if spec.renewal then
        if Keeps(c, now, trusted) then (c, RequeueAfter(Some(Boundary(c) - now)))
        else (Issued(now, spec.validFor), Again)
      else (c, RequeueAfter(if now <= c.notAfter then Some(c.notAfter - now + SECOND) else None))
  }

  /** A valid and trusted certificate is replaced in the last fifth of its life, rounded down, and not before; until
      then the controller asks to be woken when that begins. */
  ghost predicate FifthRules(c: Certificate, now: int, validFor: nat, after: Certificate, w: Wake) {
    var left, fifth := c.notAfter - now, (c.notAfter - c.notBefore) / 5;
    && (w == Again <==> left < fifth)
    && (left < fifth ==> after == Issued(now, validFor))
    && (left >= fifth ==> after == c)
    && (left > fifth ==> w == After(c.notAfter - fifth - now))
    && (left == fifth ==> w == Never)
  }

  lemma RenewedInLastFifth(c: Certificate, now: int, spec: Spec)
    requires spec.renewal && c.notBefore <= now <= c.notAfter
    ensures FifthRules(c, now, spec.validFor, Renewed(Some(c), now, spec, true).0, Renewed(Some(c), now, spec, true).1)
  {
  }

  /** The controller's reconcile; an error is retried. */
  method Reconcile(provider: CertificateProvider, spec: Spec, now: int, e: Surroundings) returns (w: Wake, failed: bool)
    requires provider.validFor == spec.validFor
    modifies provider
    ensures failed ==> w == Again && provider.secret == old(provider.secret)
    ensures !failed ==>
              provider.secret.Some? && (provider.secret.value, w) == Renewed(old(provider.secret), now, spec, e.trusted)
    ensures e.readOk && e.issueOk && e.verifyOk ==> !failed
    ensures !failed && spec.renewal && e.trusted && old(provider.secret).Some? ==>
              var c := old(provider.secret).value;
              c.notBefore <= now <= c.notAfter ==> FifthRules(c, now, spec.validFor, provider.secret.value, w)
  {
    var r := new CertificateReconciler(provider, spec.renewal);
    var outcome := r.Reconcile(now, e);
    match outcome
    case Failed => return Again, true;
    case Requeue => return Again, false;
    case Done => return RequeueAfter(r.schedule), false;
  }

  // ---------------------------------------------------------------------
  // One reconcile

  /** The schedule is never negative, and zero exactly at the boundary. Only there does renewal stop asking to
      be woken, although the certificate stays. */
  lemma ScheduleStopsAtBoundary(c: Certificate, now: int, spec: Spec, trusted: bool)
    requires spec.renewal
    ensures Keeps(c, now, trusted) ==> Boundary(c) - now >= 0
    ensures Renewed(Some(c), now, spec, trusted).1 == Never <==> trusted && ValidAt(c, now) && now == Boundary(c)
    ensures Renewed(Some(c), now, spec, trusted).1 == Never ==> Renewed(Some(c), now, spec, trusted).0 == c
  {
  }

  /** Without renewal the certificate is never replaced, and the wake-up asked for finds it expired. */
  lemma WithoutRenewal(c: Certificate, now: int, spec: Spec, trusted: bool, later: int)
    requires !spec.renewal
    ensures var n := Renewed(Some(c), now, spec, trusted);
            && n.0 == c && (n.1 == Never <==> now > c.notAfter)
            && (n.1.After? && later >= now + n.1.delay ==>
                      !ValidAt(c, later) && Renewed(Some(c), later, spec, trusted).1 == Never)
  {
  }

  // ---------------------------------------------------------------------
  // Timed runs

  /** A reconcile that went through: when, and what the chain's verdict was. */
  datatype Visit = Visit(at: int, trusted: bool)

  /** The latest instant at which a wake-up asked for at `now` takes place. */
  ghost predicate InTime(w: Wake, now: int, next: int, latency: int) {
    match w
    case Again => next <= now + latency
    case After(d) => next <= now + d + latency
    case Never => true
  }

  /** `certs[i]` is what visit `i` finds and `certs[i + 1]` what it leaves. The next visit may come early, for other
      reasons, but never later than `latency` after the instant asked for; and none falls on the boundary itself. */
  ghost predicate Follows(spec: Spec, certs: seq<Option<Certificate>>, visits: seq<Visit>, latency: int, i: nat)
    requires |certs| == |visits| + 1 && i < |visits|
  {
    && certs[i + 1] == Some(Renewed(certs[i], visits[i].at, spec, visits[i].trusted).0)
    && (certs[i].Some? ==> visits[i].at != Boundary(certs[i].value))
    && (i + 1 < |visits| ==>
          && visits[i].at <= visits[i + 1].at
          && InTime(Asked(spec, certs[i], visits[i]), visits[i].at, visits[i + 1].at, latency))
  }

  /** What the visit asked for. */
  function Asked(spec: Spec, found: Option<Certificate>, v: Visit): (w: Wake) {
    Renewed(found, v.at, spec, v.trusted).1
  }

  ghost predicate Timely(spec: Spec, certs: seq<Option<Certificate>>, visits: seq<Visit>, latency: int) {
    |certs| == |visits| + 1 && forall i :: 0 <= i < |visits| ==> Follows(spec, certs, visits, latency, i)
  }

  /** The latency is below the renewal window of whatever certificate is stored. */
  ghost predicate Covered(found: Option<Certificate>, spec: Spec, latency: int) {
    && spec.renewal && spec.validFor >= 2 && 0 <= latency < spec.validFor * SECOND / 5
    && (found.Some? ==> latency < Window(found.value))
  }

  /** One visit: what is stored is valid and stays so until the latest instant of the next. */
  lemma VisitCovers(secret: Option<Certificate>, spec: Spec, v: Visit, latency: int)
    requires Covered(secret, spec, latency) && (secret.Some? ==> v.at != Boundary(secret.value))
    ensures var n := Renewed(secret, v.at, spec, v.trusted);
            && Covered(Some(n.0), spec, latency) && ValidAt(n.0, v.at) && n.1 != Never
            && forall next :: InTime(n.1, v.at, next, latency) ==> next < n.0.notAfter
  {
  }

  /** One visit of a timely run. */
  lemma VisitAt(spec: Spec, certs: seq<Option<Certificate>>, visits: seq<Visit>, latency: int, n: nat)
    requires Timely(spec, certs, visits, latency) && n < |visits| && Covered(certs[n], spec, latency)
    ensures Covered(certs[n + 1], spec, latency) && Asked(spec, certs[n], visits[n]) != Never
    ensures certs[n + 1].Some? && ValidAt(certs[n + 1].value, visits[n].at)
    ensures n + 1 < |visits| ==> visits[n].at <= visits[n + 1].at < certs[n + 1].value.notAfter
  {
    assert Follows(spec, certs, visits, latency, n);
    VisitCovers(certs[n], spec, visits[n], latency);
  }

  lemma {:induction false} AlwaysCovered(spec: Spec, certs: seq<Option<Certificate>>, visits: seq<Visit>,
                                         latency: int, n: nat)
    requires Timely(spec, certs, visits, latency) && n < |certs| && Covered(certs[0], spec, latency)
    ensures Covered(certs[n], spec, latency)
  {
    if n > 0 {
      AlwaysCovered(spec, certs, visits, latency, n - 1);
      VisitAt(spec, certs, visits, latency, n - 1);
    }
  }

  /**
   From the first visit on, and whatever was stored before it, the stored certificate is valid at every
   instant; the controller always asks to be woken; and a visit that finds a trusted certificate replaces it
   exactly when it comes after the boundary.
   */
  lemma AlwaysUnexpired(spec: Spec, certs: seq<Option<Certificate>>, visits: seq<Visit>, latency: int, i: nat, t: int)
    requires Timely(spec, certs, visits, latency) && Covered(certs[0], spec, latency) && i < |visits|
    requires visits[i].at <= t && (t == visits[i].at || (i + 1 < |visits| && t <= visits[i + 1].at))
    ensures certs[i + 1].Some? && ValidAt(certs[i + 1].value, t)
    ensures Asked(spec, certs[i], visits[i]) != Never
    ensures i > 0 && visits[i].trusted ==>
              certs[i].Some? && (Asked(spec, certs[i], visits[i]) == Again <==> visits[i].at > Boundary(certs[i].value))
  {
    AlwaysCovered(spec, certs, visits, latency, i);
    VisitAt(spec, certs, visits, latency, i);
    if i > 0 && visits[i].trusted {
      AlwaysCovered(spec, certs, visits, latency, i - 1);
      VisitAt(spec, certs, visits, latency, i - 1);
      ReissuedIff(certs[i].value, visits[i].at, spec);
    }
  }

  lemma ReissuedIff(c: Certificate, now: int, spec: Spec)
    requires spec.renewal && ValidAt(c, now)
    ensures Renewed(Some(c), now, spec, true).1 == Again <==> now > Boundary(c)
  {
  }

  /** In a run of trusted verdicts no certificate is replaced before four fifths of its life are over. */
  lemma NeverReplacedEarly(spec: Spec, certs: seq<Option<Certificate>>, visits: seq<Visit>, latency: int, i: nat)
    requires Timely(spec, certs, visits, latency) && Covered(certs[0], spec, latency) && 0 < i < |visits|
    requires visits[i].trusted && certs[i + 1] != certs[i]
    ensures certs[i].Some? &&
            var c := certs[i].value; 5 * (visits[i].at - c.notBefore) > 4 * (c.notAfter - c.notBefore)
  {
    AlwaysCovered(spec, certs, visits, latency, i);
    assert Follows(spec, certs, visits, latency, i);
    ValidSince(spec, certs, visits, latency, i);
    RenewedInLastFifth(certs[i].value, visits[i].at, spec);
  }

  /** What a visit finds is valid by then. */
  lemma ValidSince(spec: Spec, certs: seq<Option<Certificate>>, visits: seq<Visit>, latency: int, i: nat)
    requires Timely(spec, certs, visits, latency) && Covered(certs[0], spec, latency) && 0 < i < |visits|
    ensures certs[i].Some? && ValidAt(certs[i].value, visits[i].at)
  {
    AlwaysCovered(spec, certs, visits, latency, i - 1);
    VisitAt(spec, certs, visits, latency, i - 1);
  }

  /** On the boundary the guarantee is lost: nothing is asked for, and any later visit still counts as in time. */
  lemma BoundaryVisitLosesIt(c: Certificate, spec: Spec)
    requires spec.renewal && c.notBefore <= c.notAfter
    ensures var n := Renewed(Some(c), Boundary(c), spec, true);
            n == (c, Never) && InTime(n.1, Boundary(c), c.notAfter + 1, 0) && !ValidAt(c, c.notAfter + 1)
  {
  }

  /** A validity of one second is too short: rounded down to whole seconds, the certificate may expire within
      the latency. */
  lemma OneSecondIsTooShort()
    ensures var now, c := SECOND - 1, Issued(SECOND - 1, 1);
            InTime(Again, now, now + 2, 2) && 2 < Window(c) && !ValidAt(c, now + 2)
  {
  }
}

/** Admission around provider authentication (controller/src/ingress/policy.rs). */
module Ingress {
  import opened Machine
  import opened Bytes
  import opened Deliveries
  import opened Binding
  import opened LedgerModel

  const USIZE_MAX: nat := U64_MAX

  datatype IngressError = Clock | Limits | Policy | Request | Route | Freshness | Replay

  datatype IngressLimits = IngressLimits(bodyBytes: nat, headerCount: nat, headerBytes: nat)

  datatype IngressPolicy = IngressPolicy(limits: IngressLimits, window: ReplayWindow, futureSkew: nat)
  {
    ghost predicate Valid()
    {
      && 0 < limits.bodyBytes <= USIZE_MAX && 0 < limits.headerCount <= USIZE_MAX
      && 0 < limits.headerBytes <= USIZE_MAX
      && 0 < window.maxSignedAge <= I64_MAX && 0 < window.maxQueueAge <= I64_MAX
      && futureSkew <= I64_MAX
    }
  }

  datatype ReplayIdentity = Authenticated(delivery: DeliveryId) | WholeBody

  datatype ProviderFacts = ProviderFacts(
    provider: Provider, integration: Text, change: Change, providerRun: ProviderRun)

  datatype VerifiedDelivery = VerifiedDelivery(
    facts: ProviderFacts, trustSet: Text, issuedAt: Option<int>, replay: ReplayIdentity, request: Text)

  datatype IngressCheck = IngressCheck(
    delivery: UntrustedDelivery, now: int, signedMaxAge: Option<nat>, request: Text)

  // ----- Raw ceilings -----

  function HeaderTotal(headers: seq<Header>): nat
  {
    if headers == [] then 0
    else HeaderTotal(headers[..|headers| - 1])
         + |headers[|headers| - 1].name| + |headers[|headers| - 1].value|
  }

  predicate WithinLimits(limits: IngressLimits, d: UntrustedDelivery)
  {
    |d.body| <= limits.bodyBytes && |d.headers| <= limits.headerCount && HeaderTotal(d.headers) <= limits.headerBytes
  }

  lemma {:induction false} TotalOfPrefix(headers: seq<Header>, n: nat)
    requires n <= |headers|
    ensures HeaderTotal(headers[..n]) <= HeaderTotal(headers)
    decreases |headers| - n
  {
    if n < |headers| {
      assert headers[..n + 1][..n] == headers[..n];
      TotalOfPrefix(headers, n + 1);
    } else {
      assert headers[..n] == headers;
    }
  }

  /** The checked sum refuses exactly what the unbounded sum would. */
  method Accepts(limits: IngressLimits, d: UntrustedDelivery) returns (ok: bool)
    requires limits.headerBytes <= USIZE_MAX
    ensures ok <==> WithinLimits(limits, d)
  {
    if |d.body| > limits.bodyBytes || |d.headers| > limits.headerCount { return false; }
    var total := 0;
    for i := 0 to |d.headers|
      invariant total == HeaderTotal(d.headers[..i]) <= USIZE_MAX
    {
      assert d.headers[..i + 1][..i] == d.headers[..i];
      TotalOfPrefix(d.headers, i + 1);
      var named := AddU64(total, |d.headers[i].name|);
      if named.None? { return false; }
      var valued := AddU64(named.value, |d.headers[i].value|);
      if valued.None? { return false; }
      total := valued.value;
    }
    assert d.headers[..|d.headers|] == d.headers;
    ok := total <= limits.headerBytes;
  }

  // ----- Time windows -----

  function CheckWindow(value: int, reference: int, maximumAge: nat, futureSkew: nat): Result<(), IngressError>
  {
    if value < 0 || reference < 0 then Err(IngressError.Clock)
    else
      var distance := if value > reference then value - reference else reference - value;
      var limit := if value > reference then futureSkew else maximumAge;
      if distance <= limit then Ok(()) else Err(Freshness)
  }

  lemma WindowMeans(value: int, reference: int, maximumAge: nat, futureSkew: nat)
    ensures CheckWindow(value, reference, maximumAge, futureSkew).Ok? <==>
      0 <= value && 0 <= reference && value - futureSkew <= reference <= value + maximumAge
  {
  }

  function SignedCeiling(policy: IngressPolicy, signedTime: SignedTimePolicy): Result<Option<nat>, IngressError>
  {
    match signedTime
    case ReplayOnly => Ok(None)
    case Required(maxAge) =>
      if SignedMillis(maxAge).None? || maxAge.Millis() == 0 then Err(Policy)
      else if maxAge.Millis() > policy.window.maxSignedAge then Err(Policy)
      else Ok(Some(maxAge.Millis()))
  }

  function PreAuth(
    sha: Hash, policy: IngressPolicy, d: UntrustedDelivery, clock: int): Result<IngressCheck, IngressError>
    requires Typed(d)
  {
    if !WithinLimits(policy.limits, d) then Err(Limits)
    else
      var ceiling :- SignedCeiling(policy, d.route.signedTime);
      if clock < 0 then Err(IngressError.Clock)
      else
        var _ :- CheckWindow(d.receivedAt, clock, policy.window.maxQueueAge, policy.futureSkew);
        if !Representable(d) then Err(Limits)
        else Ok(IngressCheck(d, clock, ceiling, BindingOf(sha, d)))
  }

  /** The digest of what `Binding.Feed` feeds. */
  function BindingOf(sha: Hash, d: UntrustedDelivery): Text
    requires Typed(d)
  {
    sha((Ascii(DOMAIN) + [0]) + Preimage(d))
  }

  function CheckSignedTime(policy: IngressPolicy, check: IngressCheck, issuedAt: Option<int>)
    : Result<Option<int>, IngressError>
  {
    match (check.signedMaxAge, issuedAt)
    case (None, None) => Ok(None)
    case (None, Some(_)) => Err(Policy)
    case (Some(_), None) => Err(Freshness)
    case (Some(maxAge), Some(issued)) =>
      if issued < 0 then Err(Freshness)
      else
        var _ :- CheckWindow(issued, check.now, I64_MAX, policy.futureSkew);
        var _ :- CheckWindow(issued, check.delivery.receivedAt, maxAge, policy.futureSkew);
        Ok(Some(issued))
  }

  /** How long the ledger must remember a delivery signed at `issued`. */
  function KeepEnd(window: ReplayWindow, issued: int): Option<int>
  {
    match AddI64(issued, window.maxSignedAge)
    case None => None
    case Some(value) => AddI64(value, window.maxQueueAge)
  }

  function NormalizeDelivery(verified: VerifiedDelivery, body: Text, issuedAt: Option<int>, window: ReplayWindow)
    : Result<AcceptedDelivery, IngressError>
  {
    var facts := verified.facts;
    match verified.replay
    case Authenticated(id) =>
      var delivery := AuthenticatedDelivery(
        DeliveryIdentity(facts.provider, facts.integration, id), facts.change, facts.providerRun);
      (match issuedAt
       case None => Ok(AcceptedDelivery(delivery, Permanent))
       case Some(issued) =>
         match KeepEnd(window, issued)
         case None => Err(Replay)
         case Some(end) => Ok(AcceptedDelivery(delivery, KeepThrough(end, window))))
    case WholeBody =>
      Ok(AcceptedDelivery(
        AuthenticatedDelivery(
          DeliveryIdentity(facts.provider, facts.integration, ExactBody(body)), facts.change, facts.providerRun),
        Permanent))
  }

  function PostAuth(policy: IngressPolicy, check: IngressCheck, verified: VerifiedDelivery)
    : Result<AcceptedDelivery, IngressError>
  {
    var route := check.delivery.route;
    var provider := Provider(route.namespace, route.instance);
    if verified.request != check.request then Err(Request)
    else if verified.trustSet != route.trustSet || verified.facts.provider != provider
            || verified.facts.change.provider != provider then Err(Route)
    else
      var issuedAt :- CheckSignedTime(policy, check, verified.issuedAt);
      NormalizeDelivery(verified, check.delivery.body, issuedAt, policy.window)
  }

  /** Both gates, under the one clock reading. */
  function Admit(sha: Hash, policy: IngressPolicy, d: UntrustedDelivery, clock: int, verified: VerifiedDelivery)
    : Result<AcceptedDelivery, IngressError>
    requires Typed(d)
  {
    var check :- PreAuth(sha, policy, d, clock);
    PostAuth(policy, check, verified)
  }

  // ----- What acceptance means -----

  /**
   * A delivery with a bounded replay life is only ever accepted inside it: the
   * marker the ledger keeps outlives every acceptance, whatever the skew.
   */
  lemma AcceptedWithinKeep(
    sha: Hash, policy: IngressPolicy, d: UntrustedDelivery, clock: int, verified: VerifiedDelivery)
    requires Typed(d) && Admit(sha, policy, d, clock, verified).Ok?
    ensures
      var accepted := Admit(sha, policy, d, clock, verified).value;
      && !KeepEnded(accepted.KeepUntil(), clock)
      && (accepted.keep.KeepThrough? ==>
            accepted.keep.window == policy.window
            && accepted.keep.unixMillis
               == verified.issuedAt.value + policy.window.maxSignedAge + policy.window.maxQueueAge)
      && (accepted.keep.KeepThrough? <==> verified.replay.Authenticated? && d.route.signedTime.Required?)
  {
    hide BindingOf, WithinLimits, Representable;
    WindowMeans(d.receivedAt, clock, policy.window.maxQueueAge, policy.futureSkew);
    if verified.issuedAt.Some? && SignedCeiling(policy, d.route.signedTime).value.Some? {
      WindowMeans(verified.issuedAt.value, d.receivedAt,
                  SignedCeiling(policy, d.route.signedTime).value.value, policy.futureSkew);
    }
  }

  /** The request is small enough, recent enough, and bound to its proof and route. */
  ghost predicate Timely(policy: IngressPolicy, d: UntrustedDelivery, clock: int)
  {
    && 0 <= d.receivedAt && 0 <= clock
    && d.receivedAt - policy.futureSkew <= clock <= d.receivedAt + policy.window.maxQueueAge
  }

  /** Signed exactly where the route demands it, no later than received up to the skew, and not too old. */
  ghost predicate SignedInTime(policy: IngressPolicy, d: UntrustedDelivery, clock: int, issuedAt: Option<int>)
  {
    match (d.route.signedTime, issuedAt)
    case (ReplayOnly, None) => true
    case (Required(maxAge), Some(issued)) =>
      && 0 < maxAge.Millis() <= Min(policy.window.maxSignedAge, I64_MAX) && 0 <= issued
      && issued - policy.futureSkew <= d.receivedAt <= issued + maxAge.Millis()
      && issued - policy.futureSkew <= clock <= issued + I64_MAX
    case _ => false
  }

  ghost predicate Proven(sha: Hash, d: UntrustedDelivery, verified: VerifiedDelivery)
    requires Typed(d)
  {
    && Representable(d) && verified.request == BindingOf(sha, d) && verified.trustSet == d.route.trustSet
    && verified.facts.provider == verified.facts.change.provider
    && (verified.facts.provider.namespace, verified.facts.provider.instance) == (d.route.namespace, d.route.instance)
  }

  /** What ingress admits, in one statement over the request, the proof, the clock and the policy. */
  lemma AdmitsExactly(sha: Hash, policy: IngressPolicy, d: UntrustedDelivery, clock: int, verified: VerifiedDelivery)
    requires Typed(d)
    ensures Admit(sha, policy, d, clock, verified).Ok? <==>
      && |d.body| <= policy.limits.bodyBytes && |d.headers| <= policy.limits.headerCount
      && HeaderTotal(d.headers) <= policy.limits.headerBytes
      && Timely(policy, d, clock) && SignedInTime(policy, d, clock, verified.issuedAt) && Proven(sha, d, verified)
      && (verified.replay.Authenticated? && verified.issuedAt.Some? ==>
            verified.issuedAt.value + policy.window.maxSignedAge + policy.window.maxQueueAge <= I64_MAX)
  {
    hide BindingOf, Representable, HeaderTotal, CheckWindow, Duration.Millis;
    WindowMeans(d.receivedAt, clock, policy.window.maxQueueAge, policy.futureSkew);
    if verified.issuedAt.Some? {
      WindowMeans(verified.issuedAt.value, clock, I64_MAX, policy.futureSkew);
      if d.route.signedTime.Required? {
        WindowMeans(verified.issuedAt.value, d.receivedAt, d.route.signedTime.maxAge.Millis(), policy.futureSkew);
      }
    }
  }

  /** An admitted delivery is the verified one: same provider, integration, change and run. */
  lemma AdmittedIsVerified(
    sha: Hash, policy: IngressPolicy, d: UntrustedDelivery, clock: int, verified: VerifiedDelivery)
    requires Typed(d) && Admit(sha, policy, d, clock, verified).Ok?
    ensures
      var accepted := Admit(sha, policy, d, clock, verified).value.delivery;
      && accepted.change == verified.facts.change && accepted.providerRun == verified.facts.providerRun
      && accepted.identity.provider == verified.facts.provider == accepted.change.provider
      && accepted.identity.integration == verified.facts.integration
      && match verified.replay
         case Authenticated(given) => accepted.identity.delivery == given
         case WholeBody => accepted.identity.delivery == ExactBody(d.body)
  {
    hide BindingOf, WithinLimits, Representable, CheckWindow, KeepEnd;
  }

  /**
   * Two admitted deliveries get the same ledger key if and only if they come from the
   * same integration of the same provider with the same replay identity: the same
   * assigned one, or the very same body.
   */
  lemma KeysAgreeIffSameReplay(
    sha: Hash, policy: IngressPolicy, d: UntrustedDelivery, clock: int, verified: VerifiedDelivery,
    d2: UntrustedDelivery, clock2: int, verified2: VerifiedDelivery)
    requires Typed(d) && Typed(d2)
    requires Admit(sha, policy, d, clock, verified).Ok? && Admit(sha, policy, d2, clock2, verified2).Ok?
    ensures
      Admit(sha, policy, d, clock, verified).value.Key() == Admit(sha, policy, d2, clock2, verified2).value.Key() <==>
        && verified.facts.provider == verified2.facts.provider
        && verified.facts.integration == verified2.facts.integration
        && match (verified.replay, verified2.replay)
           case (Authenticated(a), Authenticated(b)) => a == b
           case (WholeBody, WholeBody) => d.body == d2.body
           case (Authenticated(a), WholeBody) => a == ExactBody(d2.body)
           case (WholeBody, Authenticated(b)) => b == ExactBody(d.body)
  {
    hide Admit, Typed;
    AdmittedIsVerified(sha, policy, d, clock, verified);
    AdmittedIsVerified(sha, policy, d2, clock2, verified2);
  }

  /** A signed delivery received as late as the route allows and queued as long as allowed. */
  ghost predicate LatestReplay(policy: IngressPolicy, d: UntrustedDelivery, clock: int, verified: VerifiedDelivery)
  {
    && WithinLimits(policy.limits, d) && Representable(d)
    && d.route.signedTime.Required? && d.route.signedTime.maxAge.Millis() == policy.window.maxSignedAge
    && verified.issuedAt.Some? && 0 <= verified.issuedAt.value
    && d.receivedAt == verified.issuedAt.value + policy.window.maxSignedAge
    && clock == d.receivedAt + policy.window.maxQueueAge <= I64_MAX
    && verified.replay.Authenticated? && verified.trustSet == d.route.trustSet
    && verified.facts.provider == Provider(d.route.namespace, d.route.instance) == verified.facts.change.provider
  }

  /** The replay end is not a millisecond longer than it has to be. */
  lemma KeepIsTight(sha: Hash, policy: IngressPolicy, d: UntrustedDelivery, clock: int, verified: VerifiedDelivery)
    requires Typed(d) && policy.Valid() && LatestReplay(policy, d, clock, verified)
    requires verified.request == BindingOf(sha, d)
    ensures Admit(sha, policy, d, clock, verified).Ok?
    ensures Admit(sha, policy, d, clock, verified).value.KeepUntil() == Some(clock)
  {
    hide BindingOf, PreAuth, PostAuth, WithinLimits, Representable, Typed;
    LatestPassesPreAuth(sha, policy, d, clock, verified);
    LatestPassesPostAuth(policy, PreAuth(sha, policy, d, clock).value, verified);
  }

  lemma LatestPassesPreAuth(
    sha: Hash, policy: IngressPolicy, d: UntrustedDelivery, clock: int, verified: VerifiedDelivery)
    requires Typed(d) && policy.Valid() && LatestReplay(policy, d, clock, verified)
    ensures PreAuth(sha, policy, d, clock)
         == Ok(IngressCheck(d, clock, Some(policy.window.maxSignedAge), BindingOf(sha, d)))
  {
    hide BindingOf, WithinLimits, Representable, SignedCeiling;
    CeilingOfRoute(policy, d.route.signedTime);
  }

  lemma LatestPassesPostAuth(policy: IngressPolicy, check: IngressCheck, verified: VerifiedDelivery)
    requires check.signedMaxAge == Some(policy.window.maxSignedAge)
    requires LatestReplay(policy, check.delivery, check.now, verified) && verified.request == check.request
    ensures PostAuth(policy, check, verified).Ok?
    ensures PostAuth(policy, check, verified).value.KeepUntil() == Some(check.now)
  {
    hide WithinLimits, Representable;
  }

  lemma CeilingOfRoute(policy: IngressPolicy, signedTime: SignedTimePolicy)
    requires policy.Valid() && signedTime.Required? && signedTime.maxAge.Millis() == policy.window.maxSignedAge
    ensures SignedCeiling(policy, signedTime) == Ok(Some(policy.window.maxSignedAge))
  {
  }

  /** Accepting a delivery again, whenever and with whatever transport, gives the ledger the same value. */
  lemma ReplayIsTheSameDelivery(
    sha: Hash, policy: IngressPolicy, d: UntrustedDelivery, clock: int, verified: VerifiedDelivery,
    d2: UntrustedDelivery, clock2: int, verified2: VerifiedDelivery)
    requires Typed(d) && Typed(d2)
    requires Admit(sha, policy, d, clock, verified).Ok? && Admit(sha, policy, d2, clock2, verified2).Ok?
    requires verified2.facts == verified.facts && verified2.replay == verified.replay
    requires verified2.issuedAt == verified.issuedAt && (verified.replay.WholeBody? ==> d2.body == d.body)
    ensures Admit(sha, policy, d2, clock2, verified2) == Admit(sha, policy, d, clock, verified)
  {
    hide BindingOf, WithinLimits, Representable, CheckWindow, KeepEnd;
  }

  /** A proof made for one request is accepted for that request only, unless its digests collide. */
  lemma ProofBindsItsRequest(
    sha: Hash, policy: IngressPolicy, proved: UntrustedDelivery, d: UntrustedDelivery, clock: int,
    verified: VerifiedDelivery)
    requires Typed(proved) && Typed(d) && Representable(proved)
    requires verified.request == BindingOf(sha, proved)
    requires
      var a, b := (Ascii(DOMAIN) + [0]) + Preimage(proved), (Ascii(DOMAIN) + [0]) + Preimage(d);
      sha(a) == sha(b) ==> a == b
    requires Admit(sha, policy, d, clock, verified).Ok?
    ensures d == proved
  {
    hide WithinLimits, Representable, CheckWindow, KeepEnd, Preimage, NormalizeDelivery, CheckSignedTime, SignedCeiling;
    var tag := Ascii(DOMAIN) + [0];
    assert Preimage(proved) == (tag + Preimage(proved))[|tag|..];
    assert Preimage(d) == (tag + Preimage(d))[|tag|..];
    PreimageInjective(proved, d);
  }
}

/** Ingress and ledger together. */
module Replays {
  import opened Machine
  import opened Bytes
  import opened Deliveries
  import opened Binding
  import opened LedgerModel
  import opened LedgerDisk
  import opened LedgerService
  import opened LedgerRuns
  import opened Ingress

  /**
   * A delivery completed once is never executed or published again for a replay
   * that ingress accepts, however late. When the ledger's clock is not ahead of the
   * reading that admitted the replay, the marker is still there to recognise it.
   */
  lemma AcceptedReplayNeverRunsAgain(
    sha: Hash, policy: IngressPolicy,
    d: UntrustedDelivery, clock: int, verified: VerifiedDelivery,
    d2: UntrustedDelivery, clock2: int, verified2: VerifiedDelivery,
    cfg: Config, disks: seq<Disk>, events: seq<Event>, i: nat, j: nat)
    requires Binding.Typed(d) && Binding.Typed(d2)
    requires Admit(sha, policy, d, clock, verified).Ok? && Admit(sha, policy, d2, clock2, verified2).Ok?
    requires verified2.facts == verified.facts && verified2.replay == verified.replay
    requires verified2.issuedAt == verified.issuedAt && (verified.replay.WholeBody? ==> d2.body == d.body)
    requires Run(cfg, disks, events) && i < j < |events|
    requires events[i].op.Complete? && events[i].op.delivery == Admit(sha, policy, d, clock, verified).value
    requires events[i].out == Completed
    requires events[j].op.Claim? && events[j].op.delivery == Admit(sha, policy, d2, clock2, verified2).value
    ensures events[j].out.Duplicate? || events[j].out.BindingConflict? || events[j].out.Failed?
    ensures disks[j + 1].clock <= clock2 && events[j].op.check == events[i].op.staged.publication.verdict.check ==>
      events[j].out.Duplicate? || (events[j].out.Failed? && events[j].out.error != Expired)
  {
    hide *;
    RunLength(cfg, disks, events);
    ReplayIsTheSameDelivery(sha, policy, d, clock, verified, d2, clock2, verified2);
    AcceptedWithinKeep(sha, policy, d2, clock2, verified2);
    var delivery := events[i].op.delivery;
    CompletedNeverRunsAgain(cfg, disks, events, i, j, delivery);
    CompletedCheck(cfg, disks, events, i, delivery);
    NotPassedYet(disks[j + 1], delivery, clock2);
  }

  /** What is left to go wrong outside a claim that ingress admitted: clock, disk, nonce, or a record too large. */
  ghost predicate Unhindered(cfg: Config, inputs: Inputs, d: Disk, op: Op)
    requires op.Claim?
  {
    var k := op.delivery.delivery.identity;
    var now := FinalClock(inputs, d, op);
    && 0 <= inputs.second && Needed(d, op, inputs.first, inputs.second) <= inputs.writes
    && now + cfg.leaseMillis <= I64_MAX
    && if k !in d.records then
         && 0 <= inputs.first && inputs.nonce.Some? && !d.capacity.cleanupPending
         && cfg.Fits(Admission(cfg, op.owner, op.delivery, op.check, inputs.nonce.value, now))
       else
         var record := d.records[k];
         record.generation < U64_MAX && cfg.Fits(Moved(record, now, Reclaimed(cfg, op.owner, record, now)))
  }

  /**
   * Under one replay window for both, nothing ingress admits is ever refused by the
   * ledger for its configuration or its shape, and its claim is decided by the row
   * and the time alone.
   */
  lemma AdmittedClaimIsDecided(
    sha: Hash, policy: IngressPolicy, request: UntrustedDelivery, clock: int, verified: VerifiedDelivery,
    cfg: Config, inputs: Inputs, d: Disk, op: Op, out: Outcome, d': Disk)
    requires Binding.Typed(request) && Admit(sha, policy, request, clock, verified).Ok?
    requires op.Claim? && op.delivery == Admit(sha, policy, request, clock, verified).value
    requires policy.window == cfg.window
    requires DiskValid(cfg, d) && Answered(cfg, inputs, d, op, out, d')
    ensures out != Failed(LedgerError.Configuration)
    ensures Unhindered(cfg, inputs, d, op) ==>
      && (op.delivery.delivery.identity in d.records || inputs.nonce.Some?)
      && out == Decision(cfg, inputs, d, op.owner, op.delivery, op.check)
  {
    hide *;
    AdmittedWindow(sha, policy, request, clock, verified);
    AdmittedIsVerified(sha, policy, request, clock, verified);
    ConfigurationIffOtherWindow(cfg, inputs, d, op, out, d');
    if Unhindered(cfg, inputs, d, op) {
      UnhinderedIsHealthy(cfg, inputs, d, op);
      ClaimIsDecided(cfg, inputs, d, op, out, d');
    }
  }

  /** No call about an admitted delivery is ever refused for the configuration. */
  lemma AdmittedWindowIsTheRoots(
    sha: Hash, policy: IngressPolicy, request: UntrustedDelivery, clock: int, verified: VerifiedDelivery,
    cfg: Config, inputs: Inputs, d: Disk, op: Op, out: Outcome, d': Disk)
    requires Binding.Typed(request) && Admit(sha, policy, request, clock, verified).Ok?
    requires !op.Cleanup? && op.delivery == Admit(sha, policy, request, clock, verified).value
    requires policy.window == cfg.window && Answered(cfg, inputs, d, op, out, d')
    ensures out != Failed(LedgerError.Configuration)
  {
    hide *;
    AdmittedWindow(sha, policy, request, clock, verified);
    ConfigurationIffOtherWindow(cfg, inputs, d, op, out, d');
  }

  lemma AdmittedWindow(
    sha: Hash, policy: IngressPolicy, request: UntrustedDelivery, clock: int, verified: VerifiedDelivery)
    requires Binding.Typed(request) && Admit(sha, policy, request, clock, verified).Ok?
    ensures
      match Admit(sha, policy, request, clock, verified).value.keep
      case Permanent => true
      case KeepThrough(end, window) => window == policy.window && 0 <= end
  {
    hide *;
    AcceptedWithinKeep(sha, policy, request, clock, verified);
    AdmitsExactly(sha, policy, request, clock, verified);
    if Admit(sha, policy, request, clock, verified).value.keep.KeepThrough? {
      IssuedIsNatural(policy, request, clock, verified.issuedAt);
    }
  }

  lemma IssuedIsNatural(policy: IngressPolicy, d: UntrustedDelivery, clock: int, issuedAt: Option<int>)
    requires SignedInTime(policy, d, clock, issuedAt)
    ensures d.route.signedTime.Required? ==> issuedAt.Some? && 0 <= issuedAt.value
  {
  }

  lemma UnhinderedIsHealthy(cfg: Config, inputs: Inputs, d: Disk, op: Op)
    requires op.Claim? && Unhindered(cfg, inputs, d, op)
    requires op.delivery.delivery.identity.provider == op.delivery.delivery.change.provider
    requires
      match op.delivery.keep
      case Permanent => true
      case KeepThrough(end, window) => window == cfg.window && 0 <= end
    ensures Healthy(cfg, inputs, d, op)
  {
    hide Needed;
  }

  lemma RunLength(cfg: Config, disks: seq<Disk>, events: seq<Event>)
    requires Run(cfg, disks, events)
    ensures |disks| == |events| + 1
  {
  }

  lemma CompletedCheck(cfg: Config, disks: seq<Disk>, events: seq<Event>, i: nat, delivery: AcceptedDelivery)
    requires Run(cfg, disks, events) && i < |events|
    requires events[i].op.Complete? && events[i].op.delivery == delivery && events[i].out == Completed
    ensures Mine(disks[i + 1], delivery).Some?
    ensures Mine(disks[i + 1], delivery).value.check == events[i].op.staged.publication.verdict.check
  {
    hide Call;
    assert Call(cfg, disks[i], events[i], disks[i + 1]);
    CompletedIsFinal(cfg, disks[i], events[i], disks[i + 1], delivery);
  }

  lemma NotPassedYet(d: Disk, delivery: AcceptedDelivery, now: int)
    requires !KeepEnded(delivery.KeepUntil(), now)
    ensures d.clock <= now ==> !Passed(d, delivery)
  {
  }
}

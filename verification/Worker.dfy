/** The single worker draining one inbox (controller/service/src/worker.rs). */
module Worker {
  import opened Machine
  import opened Bytes
  import opened InboxLimits
  import opened Deliveries
  import opened InboxRecord
  import opened InboxProtocol
  import opened InboxService
  import opened InboxRuns

  /** What handling one delivery reported, grouped as the worker tells them apart. */
  datatype Handled =
    | InProgress(retryAt: int)
    | Settled    // published, duplicate, or refused for good by ingress or binding
    | Transient  // provider, publication, lease, completion or artifact I/O trouble
    | Untrusted  // local state that must stop the worker

  datatype Disposition = Finish | RetryAt(at: int) | Backoff | Fatal

  function Decide(handled: Handled): Disposition
  {
    match handled
    case InProgress(retryAt) => RetryAt(retryAt)
    case Settled => Finish
    case Transient => Backoff
    case Untrusted => Fatal
  }

  datatype WorkerError = ClaimedRoute | LeaseLost | InboxFailed(error: InboxError) | ClockFailed | Stopped

  /** What happens while the controller thread works: a wait runs out, or a receiver enqueues. */
  datatype Tick = WaitElapsed(now: int, diskOk: bool) | Arrival(incoming: Delivery, diskOk: bool)

  const RENEWAL_POLL_MILLIS: nat := 5_000

  function Pow2(e: nat): (p: nat)
    ensures p > 0
  {
    if e == 0 then 1 else 2 * Pow2(e - 1)
  }

  /** The delay before another attempt, in nanoseconds; the shift stops at sixteen doublings. */
  function RetryDelay(attempt: nat, minimum: nat, maximum: nat): nat
  {
    var shift := Min(if attempt == 0 then 0 else attempt - 1, 16);
    Min(minimum * Pow2(shift), maximum)
  }

  /** The whole milliseconds of a delay, as it is added to a clock reading. */
  function DelayMillis(nanos: nat): nat { nanos / 1_000_000 }

  /** Backoff starts at the minimum, doubles up to the cap, and never leaves the two bounds. */
  lemma BackoffDoubles(attempt: nat, minimum: nat, maximum: nat)
    requires 1 <= minimum <= maximum
    ensures minimum <= RetryDelay(attempt, minimum, maximum) <= maximum
    ensures attempt <= 1 ==> RetryDelay(attempt, minimum, maximum) == minimum
    ensures 1 <= attempt <= 16 ==>
      RetryDelay(attempt + 1, minimum, maximum)
      == Min(2 * RetryDelay(attempt, minimum, maximum), maximum)
    ensures attempt >= 17 ==>
      RetryDelay(attempt, minimum, maximum) == RetryDelay(17, minimum, maximum)
  {
    hide Pow2;
    var shift := Min(if attempt == 0 then 0 else attempt - 1, 16);
    PowerSteps(shift);
    Multiplied(minimum, Pow2(shift));
    if 1 <= attempt <= 16 { Doubled(minimum, Pow2(attempt - 1), Pow2(attempt)); }
  }

  /** A delay added to a clock loses less than a millisecond. */
  lemma DelayIsTruncated(nanos: nat)
    ensures 1_000_000 * DelayMillis(nanos) <= nanos < 1_000_000 * (DelayMillis(nanos) + 1)
  {
  }

  lemma PowerSteps(e: nat)
    ensures Pow2(0) == 1 && Pow2(e + 1) == 2 * Pow2(e)
  {
  }

  lemma Doubled(a: nat, b: nat, c: nat)
    requires c == 2 * b
    ensures a * c == 2 * (a * b)
  {
  }

  lemma Multiplied(a: nat, b: nat)
    requires b >= 1
    ensures a * b >= a
  {
  }

  /** How long to wait before renewing a lease. */
  function RenewalWait(expiresAt: int, now: int): nat
  {
    var remaining := expiresAt - now;
    Min(if remaining > 1 then remaining / 2 else 1, RENEWAL_POLL_MILLIS)
  }

  /** A wait that ends on time ends before the lease does, exactly when two milliseconds are left. */
  lemma RenewalComesBeforeExpiry(expiresAt: int, now: int)
    ensures 1 <= RenewalWait(expiresAt, now) <= 5_000
    ensures RenewalWait(expiresAt, now) < 5_000 && now + 2 <= expiresAt ==>
      2 * RenewalWait(expiresAt, now) <= expiresAt - now <= 2 * RenewalWait(expiresAt, now) + 1
    ensures now + RenewalWait(expiresAt, now) < expiresAt <==> now + 2 <= expiresAt
  {
  }

  /** The token is the one its stored row carries right now. */
  ghost predicate Current(rows: Rows, lease: DeliveryLease)
  {
    && lease.key in rows
    && rows[lease.key].state.Claimed?
    && lease == MakeLease(lease.key, rows[lease.key])
  }

  lemma CurrentIsLive(rows: Rows, lease: DeliveryLease, now: int)
    requires Current(rows, lease) && now >= 0
    ensures Holds(rows, lease, now) <==> now < lease.expiresAt
  {
  }

  lemma ArrivalKeepsCurrent(env: Env, rows: Rows, incoming: Delivery, out: Outcome, rows': Rows, lease: DeliveryLease)
    requires Step(env, rows, Enqueue(incoming), out, rows') && Current(rows, lease)
    ensures Current(rows', lease)
  {
    hide Step, EnqueueStep;
    var e := Event(Enqueue(incoming), out);
    StepOnRow(env, rows, e, rows', lease.key);
    EnqueueTouchesNothing(env, rows, incoming, out, rows', lease.key);
  }

  lemma EnqueueTouchesNothing(env: Env, rows: Rows, incoming: Delivery, out: Outcome, rows': Rows, k: Text)
    requires Step(env, rows, Enqueue(incoming), out, rows')
    ensures !Touches(Event(Enqueue(incoming), out), k) && !Removes(Event(Enqueue(incoming), out), k)
  {
    hide Normalize, NewRecord, SourceKey, AtCapacity;
  }

  /** What a renewal answers when the token is current. */
  lemma RenewalOfCurrent(env: Env, rows: Rows, lease: DeliveryLease, now: int, out: Outcome, rows': Rows)
    requires Current(rows, lease) && now >= 0
    requires Step(env, rows, Renew(lease, now), out, rows')
    ensures out.Renewed? || out == Lost || out.Failed?
    ensures out.Renewed? ==>
      && out.lease == lease.(generation := lease.generation + 1,
                             expiresAt := Max(now + env.limits.leaseMillis, lease.expiresAt))
      && Current(rows', out.lease)
    ensures !out.Renewed? ==> rows' == rows
    ensures out == Lost <==> now >= lease.expiresAt && out != Failed(Io)
    ensures out.Failed? && out.error != Io ==>
      now < lease.expiresAt
      && if now + env.limits.leaseMillis > I64_MAX then out.error == Clock
         else out.error == Corrupt && lease.generation >= U64_MAX
  {
    hide ClaimStep, EnqueueStep, RetryStep, CompleteStep;
    CurrentIsLive(rows, lease, now);
  }

  lemma CompletionOfCurrent(env: Env, rows: Rows, lease: DeliveryLease, now: int, out: Outcome, rows': Rows)
    requires Current(rows, lease) && now >= 0
    requires Step(env, rows, Complete(lease, now), out, rows')
    ensures out in {Completed, Lost, Failed(Io)}
    ensures out == Completed ==> rows' == rows - {lease.key}
    ensures out != Completed ==> rows' == rows
    ensures out == Lost <==> now >= lease.expiresAt && out != Failed(Io)
  {
    hide ClaimStep, EnqueueStep, RetryStep, RenewStep;
    CurrentIsLive(rows, lease, now);
  }

  lemma RetryOfCurrent(
    env: Env, rows: Rows, lease: DeliveryLease, now: int, at: int, out: Outcome, rows': Rows)
    requires Current(rows, lease) && 0 <= now <= at
    requires Step(env, rows, Retry(lease, now, at), out, rows')
    ensures out in {Scheduled, Lost, Failed(Io), Failed(Corrupt)}
    ensures out == Scheduled ==>
      lease.key in rows
      && rows' == rows[lease.key := rows[lease.key].(generation := lease.generation + 1, state := Pending(at))]
    ensures out != Scheduled ==> rows' == rows
    ensures out == Lost <==> now >= lease.expiresAt && out != Failed(Io)
    ensures out == Failed(Corrupt) ==> now < lease.expiresAt && lease.generation >= U64_MAX
  {
    hide ClaimStep, EnqueueStep, CompleteStep, RenewStep;
    CurrentIsLive(rows, lease, now);
  }

  /** The inbox call one tick stands for; a renewal is always of the current token. */
  ghost predicate CallFor(env: Env, tick: Tick, rows: Rows, e: Event, rows': Rows)
  {
    && Step(env, rows, e.op, e.out, rows')
    && match tick
       case Arrival(incoming, _) => e.op == Enqueue(incoming)
       case WaitElapsed(now, _) => e.op.Renew? && e.op.now == now && Current(rows, e.op.lease)
  }

  /** The first ticks, each made its call. */
  ghost predicate Calls(env: Env, ticks: seq<Tick>, states: seq<Rows>, events: seq<Event>)
  {
    && |states| == |events| + 1 <= |ticks| + 1
    && forall i :: 0 <= i < |events| ==> CallFor(env, ticks[i], states[i], events[i], states[i + 1])
  }

  class DeliveryWorker {
    const inbox: Inbox
    const routeId: Text
    const retryMinNanos: nat
    const retryMaxNanos: nat

    constructor (inbox: Inbox, routeId: Text, retryMinNanos: nat, retryMaxNanos: nat)
      requires 1 <= retryMinNanos <= retryMaxNanos
      ensures this.inbox == inbox && this.routeId == routeId
      ensures this.retryMinNanos == retryMinNanos && this.retryMaxNanos == retryMaxNanos
    {
      this.inbox := inbox;
      this.routeId := routeId;
      this.retryMinNanos := retryMinNanos;
      this.retryMaxNanos := retryMaxNanos;
    }

    /** What about one elapsed wait makes the worker give a lease up while handling it. */
    ghost predicate Upset(tick: Tick, lease: DeliveryLease, error: WorkerError)
      reads inbox
    {
      && tick.WaitElapsed?
      && match error
         case ClockFailed => tick.now < 0
         case LeaseLost => lease.expiresAt <= tick.now
         case InboxFailed(Io) => !tick.diskOk
         case InboxFailed(Clock) => I64_MAX < tick.now + inbox.env.limits.leaseMillis
         case InboxFailed(Corrupt) => U64_MAX <= lease.generation
         case _ => false
    }

    /** The settlement's time is one the clock and the 64-bit schedule can express. */
    ghost predicate Readable(decision: Disposition, attempt: nat, base: int, now: int)
    {
      0 <= now && (decision.Backoff? ==>
        0 <= base && base + DelayMillis(RetryDelay(attempt, retryMinNanos, retryMaxNanos)) <= I64_MAX)
    }

    /** When a retried row becomes ready again: never before the settlement itself. */
    ghost function DueAt(decision: Disposition, attempt: nat, base: int, now: int): int
      requires decision.RetryAt? || decision.Backoff?
    {
      match decision
      case RetryAt(at) => Max(at, now)
      case Backoff => Max(base + DelayMillis(RetryDelay(attempt, retryMinNanos, retryMaxNanos)), now)
    }

    /**
     * Renews the lease for as long as the controller works, while receivers may
     * enqueue at any time. Whatever happens, the token returned is the stored
     * one, and a lost lease can only mean the reading reached its expiry.
     */
    method Handle(first: DeliveryLease, ticks: seq<Tick>)
      returns (lease: DeliveryLease, failure: Option<WorkerError>, reading: int, ghost states: seq<Rows>,
               ghost events: seq<Event>)
      requires inbox.Valid() && Current(inbox.rows, first)
      requires forall i :: 0 <= i < |ticks| && ticks[i].Arrival? ==> Typed(Enqueue(ticks[i].incoming))
      modifies inbox`rows
      ensures inbox.Valid() && Current(inbox.rows, lease)
      ensures lease.key == first.key && lease.attempt == first.attempt
      ensures failure == Some(LeaseLost) ==> reading >= lease.expiresAt
      ensures failure.Some? ==> exists i :: 0 <= i < |ticks| && Upset(ticks[i], lease, failure.value)
      ensures failure.None? ==> forall i :: 0 <= i < |ticks| && ticks[i].WaitElapsed? ==> 0 <= ticks[i].now
      ensures Calls(inbox.env, ticks, states, events) && states[0] == old(inbox.rows)
      ensures states[|events|] == inbox.rows && (failure.None? ==> |events| == |ticks|)
    {
      hide Step, StateValid, Current, Typed, CallFor, Upset;
      lease, failure, reading := first, None, 0;
      states, events := [inbox.rows], [];
      for i := 0 to |ticks|
        invariant inbox.Valid() && Current(inbox.rows, lease) && failure.None?
        invariant lease.key == first.key && lease.attempt == first.attempt
        invariant forall j :: 0 <= j < i && ticks[j].WaitElapsed? ==> 0 <= ticks[j].now
        invariant Calls(inbox.env, ticks, states, events) && states[0] == old(inbox.rows)
        invariant |events| == i && states[|events|] == inbox.rows
      {
        if ticks[i].WaitElapsed? { reading := ticks[i].now; }
        ghost var event;
        lease, failure, event := HandleTick(lease, ticks[i]);
        if failure != Some(ClockFailed) { states, events := states + [inbox.rows], events + [event]; }
        if failure.Some? { return; }
      }
    }

    /** One tick: an arrival is enqueued, an elapsed wait renews the lease. */
    method HandleTick(current: DeliveryLease, tick: Tick)
      returns (lease: DeliveryLease, failure: Option<WorkerError>, ghost event: Event)
      requires inbox.Valid() && Current(inbox.rows, current)
      requires tick.Arrival? ==> Typed(Enqueue(tick.incoming))
      modifies inbox`rows
      ensures inbox.Valid() && Current(inbox.rows, lease)
      ensures lease.key == current.key && lease.attempt == current.attempt
      ensures failure == Some(ClockFailed) <==> tick.WaitElapsed? && tick.now < 0
      ensures failure.Some? ==> Upset(tick, lease, failure.value)
      ensures failure == Some(LeaseLost) ==> tick.WaitElapsed? && tick.now >= lease.expiresAt
      ensures if failure == Some(ClockFailed) then inbox.rows == old(inbox.rows)
              else CallFor(inbox.env, tick, old(inbox.rows), event, inbox.rows)
    {
      hide Step, StateValid, Current, Typed;
      lease, failure, event := current, None, Event(Claim(0), Empty);
      ghost var before := inbox.rows;
      match tick
      case Arrival(incoming, diskOk) =>
        var out := inbox.EnqueueDelivery(incoming, diskOk);
        ArrivalKeepsCurrent(inbox.env, before, incoming, out, inbox.rows, lease);
        event := Event(Enqueue(incoming), out);
      case WaitElapsed(now, diskOk) =>
        if now < 0 { failure := Some(ClockFailed); return; }
        var out := inbox.RenewLease(lease, now, diskOk);
        RenewalOfCurrent(inbox.env, before, lease, now, out, inbox.rows);
        event := Event(Renew(lease, now), out);
        match out {
          case Renewed(replacement) => lease := replacement;
          case Failed(error) => failure := Some(InboxFailed(error));
          case _ => failure := Some(LeaseLost);
        }
    }

    /** Settles a handled delivery; a backoff is counted from the `base` reading. */
    method Settle(lease: DeliveryLease, decision: Disposition, base: int, now: int, diskOk: bool)
      returns (failure: Option<WorkerError>)
      requires inbox.Valid() && Current(inbox.rows, lease) && now <= I64_MAX
      requires decision.RetryAt? ==> decision.at <= I64_MAX
      modifies inbox`rows
      ensures inbox.Valid()
      ensures failure == Some(Stopped) <==> decision.Fatal?
      ensures failure == Some(ClockFailed) <==> !decision.Fatal? && !Readable(decision, lease.attempt, base, now)
      ensures failure == Some(LeaseLost) <==>
        && !decision.Fatal? && Readable(decision, lease.attempt, base, now)
        && lease.expiresAt <= now && failure != Some(InboxFailed(Io))
      ensures failure.Some? && failure.value.InboxFailed? ==>
        || (failure.value.error == Io && !diskOk)
        || (failure.value.error == Corrupt && !decision.Finish? && U64_MAX <= lease.generation)
      ensures failure != Some(ClaimedRoute)
      ensures failure.Some? ==>
        || decision.Fatal? || !Readable(decision, lease.attempt, base, now) || !diskOk || lease.expiresAt <= now
        || (!decision.Finish? && U64_MAX <= lease.generation)
      ensures failure.None? && decision.Finish? ==> inbox.rows == old(inbox.rows) - {lease.key}
      ensures failure.None? && !decision.Finish? ==>
        && !decision.Fatal? && lease.key in old(inbox.rows)
        && inbox.rows == old(inbox.rows)[
             lease.key := old(inbox.rows)[lease.key].(
               generation := lease.generation + 1, state := Pending(DueAt(decision, lease.attempt, base, now)))]
      ensures failure.Some? ==> inbox.rows == old(inbox.rows)
    {
      hide Step, StateValid, RetryDelay;
      if decision.Fatal? { return Some(Stopped); }
      if now < 0 || (decision.Backoff? && base < 0) { return Some(ClockFailed); }
      ghost var before := inbox.rows;
      if decision.Finish? {
        var out := inbox.CompleteRow(lease, now, diskOk);
        CompletionOfCurrent(inbox.env, before, lease, now, out, inbox.rows);
        return Verdict(out, Completed);
      }
      var requested := base + DelayMillis(RetryDelay(lease.attempt, retryMinNanos, retryMaxNanos));
      if decision.Backoff? && requested > I64_MAX { return Some(ClockFailed); }
      var at := Max(if decision.Backoff? then requested else decision.at, now);
      var out := inbox.RetryLater(lease, now, at, diskOk);
      RetryOfCurrent(inbox.env, before, lease, now, at, out, inbox.rows);
      failure := Verdict(out, Scheduled);
    }

    /**
     * One claimed delivery from hand-out to settlement; `ended` says that the
     * controller's work ended before the lease was given up. With this the only
     * worker, `LeaseLost` never means that somebody else took the row.
     */
    method Process(
      delivery: Delivery, claimed: DeliveryLease, admitted: bool, ticks: seq<Tick>,
      handled: Handled, base: int, now: int, diskOk: bool)
      returns (failure: Option<WorkerError>, lease: DeliveryLease, reading: int, ended: bool)
      requires inbox.Valid() && Current(inbox.rows, claimed) && now <= I64_MAX
      requires forall i :: 0 <= i < |ticks| && ticks[i].Arrival? ==> Typed(Enqueue(ticks[i].incoming))
      requires handled.InProgress? ==> handled.retryAt <= I64_MAX
      modifies inbox`rows
      ensures inbox.Valid() && lease.key == claimed.key && lease.attempt == claimed.attempt
      ensures failure == Some(ClaimedRoute) <==> delivery.route != routeId
      ensures failure == Some(LeaseLost) ==>
        reading >= lease.expiresAt && Current(inbox.rows, lease)
      ensures delivery.route == routeId && !ended ==>
        admitted && failure.Some? && exists i :: 0 <= i < |ticks| && Upset(ticks[i], lease, failure.value)
      ensures delivery.route == routeId && ended ==>
        Outcomes(lease, if admitted then handled else Settled, base, now, diskOk, failure)
      ensures failure == Some(Stopped) ==> admitted && handled.Untrusted?
      ensures failure.None? && (!admitted || handled.Settled?) ==> claimed.key !in inbox.rows
      ensures failure.None? && admitted && !handled.Settled? ==> claimed.key in inbox.rows
      ensures failure.None? && admitted && handled.InProgress? ==>
        claimed.key in inbox.rows && inbox.rows[claimed.key].state == Pending(Max(handled.retryAt, now))
      ensures failure.None? && admitted && handled.Transient? ==>
        && claimed.key in inbox.rows
        && inbox.rows[claimed.key].state
           == Pending(Max(base + DelayMillis(RetryDelay(claimed.attempt, retryMinNanos, retryMaxNanos)), now))
      ensures failure.Some? ==> claimed.key in inbox.rows
    {
      hide Step, StateValid, Typed, RetryDelay;
      lease, reading, ended := claimed, now, true;
      if delivery.route != routeId { return Some(ClaimedRoute), lease, reading, ended; }
      if !admitted {
        failure := Settle(lease, Finish, base, now, diskOk);
        return;
      }
      ghost var states, events;
      lease, failure, reading, states, events := Handle(claimed, ticks);
      ended := failure.None?;
      if failure.Some? { return; }
      reading := now;
      failure := Settle(lease, Decide(handled), base, now, diskOk);
    }

    /** How a delivery handled this way may be settled: each failure exactly for its own cause. */
    ghost predicate Outcomes(
      lease: DeliveryLease, handled: Handled, base: int, now: int, diskOk: bool, failure: Option<WorkerError>)
    {
      var due := base + DelayMillis(RetryDelay(lease.attempt, retryMinNanos, retryMaxNanos));
      var timed := 0 <= now && (handled.Transient? ==> 0 <= base && due <= I64_MAX);
      && (failure == Some(Stopped) <==> handled.Untrusted?)
      && (failure == Some(ClockFailed) <==> !handled.Untrusted? && !timed)
      && (failure == Some(LeaseLost) <==>
            !handled.Untrusted? && timed && lease.expiresAt <= now && failure != Some(InboxFailed(Io)))
      && (failure == Some(InboxFailed(Io)) ==> !diskOk)
      && (failure.Some? ==>
            || handled.Untrusted? || !timed || !diskOk || lease.expiresAt <= now
            || (!handled.Settled? && U64_MAX <= lease.generation))
    }

    /** Claims and processes at most one ready row. */
    method WorkOnce(
      claimNow: int, claimOk: bool, admitted: bool, ticks: seq<Tick>, handled: Handled,
      base: int, now: int, diskOk: bool)
      returns (
        claim: Outcome, failure: Option<WorkerError>, lease: Option<DeliveryLease>, reading: int, ended: bool)
      requires inbox.Valid() && now <= I64_MAX
      requires forall i :: 0 <= i < |ticks| && ticks[i].Arrival? ==> Typed(Enqueue(ticks[i].incoming))
      requires handled.InProgress? ==> handled.retryAt <= I64_MAX
      modifies inbox`rows
      ensures inbox.Valid()
      ensures claim.Issued? <==> lease.Some?
      ensures !claim.Issued? ==> inbox.rows == old(inbox.rows)
      ensures claim.Failed? ==> failure == Some(InboxFailed(claim.error))
      ensures claim.Waiting? || claim.Empty? ==> failure.None?
      ensures failure == Some(LeaseLost) ==>
        lease.Some? && reading >= lease.value.expiresAt && Current(inbox.rows, lease.value)
      ensures claim.Issued? && failure.None? ==>
        (claim.lease.key !in inbox.rows <==> !admitted || handled.Settled?)
      ensures claim.Issued? && claim.delivery.route == routeId && ended ==>
        Outcomes(lease.value, if admitted then handled else Settled, base, now, diskOk, failure)
      ensures claim.Issued? && claim.delivery.route == routeId && !ended ==>
        admitted && failure.Some? && exists i :: 0 <= i < |ticks| && Upset(ticks[i], lease.value, failure.value)
      ensures claim.Issued? && claim.delivery.route != routeId ==> failure == Some(ClaimedRoute)
    {
      hide Step, StateValid, Typed, Current, RetryDelay, Outcomes, Upset;
      failure, lease, reading, ended := None, None, claimNow, true;
      ghost var before := inbox.rows;
      claim := inbox.ClaimNext(claimNow, claimOk);
      ClaimShapes(inbox.env, before, claimNow, claim, inbox.rows);
      match claim
      case Issued(delivery, issued) =>
        ClaimIsCurrent(inbox.env, before, Event(Claim(claimNow), claim), inbox.rows);
        var last: DeliveryLease;
        failure, last, reading, ended := Process(delivery, issued, admitted, ticks, handled, base, now, diskOk);
        lease := Some(last);
      case Failed(error) => failure := Some(InboxFailed(error));
      case _ =>
    }
  }

  lemma ClaimShapes(env: Env, rows: Rows, now: int, out: Outcome, rows': Rows)
    requires Step(env, rows, Claim(now), out, rows')
    ensures !out.Issued? ==> rows' == rows
    ensures out.Issued? || out.Waiting? || out.Empty? || out.Failed?
  {
    hide LeastReady, Ready;
  }

  lemma ClaimIsCurrent(env: Env, rows: Rows, e: Event, rows': Rows)
    requires Step(env, rows, e.op, e.out, rows') && e.out.Issued?
    ensures Current(rows', e.out.lease)
  {
    hide Step;
    IssuedRow(env, rows, e, rows', e.out.lease);
  }

  /** How the worker reads an inbox answer to a settlement. */
  function Verdict(out: Outcome, success: Outcome): Option<WorkerError>
  {
    if out == success then None
    else if out.Failed? then Some(InboxFailed(out.error))
    else Some(LeaseLost)
  }
}

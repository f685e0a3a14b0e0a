/**
 * Whole runs of the inbox: any interleaving of calls, any clock readings, and any
 * openings, each of which draws its own owner.
 */
module InboxRuns {
  import opened Machine
  import opened Bytes
  import opened Totals
  import opened InboxLimits
  import opened Deliveries
  import opened InboxRecord
  import opened InboxProtocol

  datatype Event = Event(op: Op, out: Outcome)

  /** `owners[i]` is the owner of the opening that makes call `i`; opening changes no row. */
  ghost predicate Run(env: Env, owners: seq<Text>, states: seq<Rows>, events: seq<Event>)
  {
    && |states| == |events| + 1 && |owners| == |events|
    && forall i :: 0 <= i < |events| ==> StepAt(env, owners, states, events, i)
  }

  ghost predicate StepAt(env: Env, owners: seq<Text>, states: seq<Rows>, events: seq<Event>, i: nat)
    requires i < |events| && |states| == |events| + 1 && |owners| == |events|
  {
    && ValidOwner(owners[i]) && Typed(events[i].op)
    && Step(By(env, owners[i]), states[i], events[i].op, events[i].out, states[i + 1])
  }

  /** The same root opened by another owner. */
  function By(env: Env, owner: Text): Env { env.(owner := owner) }

  lemma OwnerIsFree(env: Env, owner: Text, rows: Rows)
    requires StateValid(env, rows) && ValidOwner(owner)
    ensures StateValid(By(env, owner), rows)
  {
    hide RecordValid, ExactReservation, Accepted, ValidOwner;
  }

  lemma ValidAgain(env: Env, owner: Text, rows: Rows, earlier: Rows)
    requires StateValid(By(env, owner), rows) && StateValid(env, earlier)
    ensures StateValid(env, rows)
  {
    hide RecordValid, ExactReservation, Accepted, ValidOwner;
  }

  lemma {:induction false} RunStaysValid(env: Env, owners: seq<Text>, states: seq<Rows>, events: seq<Event>, n: nat)
    requires Run(env, owners, states, events) && StateValid(env, states[0]) && n <= |events|
    ensures StateValid(env, states[n])
  {
    hide StateValid, Step, Typed;
    if n > 0 {
      RunStaysValid(env, owners, states, events, n - 1);
      assert StepAt(env, owners, states, events, n - 1);
      OwnerIsFree(env, owners[n - 1], states[n - 1]);
      StepKeepsValid(By(env, owners[n - 1]), states[n - 1], events[n - 1].op, events[n - 1].out, states[n]);
      ValidAgain(env, owners[n - 1], states[n], states[0]);
    }
  }

  lemma SpareReservation(env: Env, rows: Rows)
    requires StateValid(env, rows)
    ensures Total(Sizes(rows)) <= |rows| * ExactReservation(env.limits)
    ensures rows != map[] ==> Total(Sizes(rows)) + ExactReservation(env.limits) <= env.limits.maxBytes
  {
    hide RecordValid, RowBytes, ExactReservation, ValidOwner, Accepted, Sizes, Total;
    BytesWithinReservations(env, rows);
    OneMore(|rows|, ExactReservation(env.limits));
  }

  lemma FullOnlyAtCapacity(env: Env, rows: Rows, op: Op, rows': Rows)
    requires Step(env, rows, op, Failed(Full), rows')
    ensures op.Enqueue? && AtCapacity(env, rows)
  {
    hide Normalize, NewRecord, SourceKey, AtCapacity;
  }

  /**
   * Once a row is stored there is always room to claim, renew or retry it: in
   * every reachable state the rows stay within their reservations with one more
   * to spare, and only an admission at capacity is ever refused for space.
   */
  lemma NeverFullOnceStored(env: Env, owners: seq<Text>, states: seq<Rows>, events: seq<Event>, n: nat)
    requires Run(env, owners, states, events) && StateValid(env, states[0]) && n <= |events|
    ensures StateValid(env, states[n])
    ensures Total(Sizes(states[n])) <= |states[n]| * ExactReservation(env.limits)
    ensures states[n] != map[] ==>
      Total(Sizes(states[n])) + ExactReservation(env.limits) <= env.limits.maxBytes
    ensures n < |events| && events[n].out == Failed(Full) ==>
      events[n].op.Enqueue? && AtCapacity(env, states[n])
  {
    hide StateValid, Step, Typed, Sizes, ExactReservation;
    RunStaysValid(env, owners, states, events, n);
    SpareReservation(env, states[n]);
    if n < |events| && events[n].out == Failed(Full) {
      assert StepAt(env, owners, states, events, n);
      FullOnlyAtCapacity(By(env, owners[n]), states[n], events[n].op, states[n + 1]);
    }
  }

  /** An empty inbox under accepted limits admits every valid delivery. */
  lemma EmptyInboxAdmits(env: Env, incoming: Delivery, out: Outcome, rows: Rows)
    requires Accepted(env.limits) && Normalize(incoming, env.limits).Ok?
    requires Step(env, map[], Enqueue(incoming), out, rows) && out != Failed(Io)
    ensures out == Stored && |rows| == 1
    ensures var key := SourceKey(env.sha, incoming.route, incoming.sourceId);
            key in rows && rows[key].delivery == Some(Normalize(incoming, env.limits).value)
  {
    hide RecordValid, Normalize, SourceKey, ContentDigest;
    assert !AtCapacity(env, map[]);
  }

  /** No stored row's key is a hash collision with this source's. */
  ghost predicate KeyIsOwn(env: Env, rows: Rows, route: Text, sourceId: Text)
  {
    forall k :: k in rows ==>
      var p, q := KeyPreimage(rows[k].route, rows[k].sourceId), KeyPreimage(route, sourceId);
      env.sha(p) == env.sha(q) ==> p == q
  }

  lemma KeyStoredIffSource(env: Env, rows: Rows, route: Text, sourceId: Text)
    requires StateValid(env, rows) && KeyIsOwn(env, rows, route, sourceId)
    ensures SourceKey(env.sha, route, sourceId) in rows <==>
      exists k :: k in rows && rows[k].route == route && rows[k].sourceId == sourceId
  {
    hide SourceKey, KeyPreimage, ExactReservation, Accepted, ValidOwner, DeliveryValid, ContentDigest, ValidLabel;
    forall k | k in rows
      ensures SourceKey(env.sha, rows[k].route, rows[k].sourceId) == k
      ensures k == SourceKey(env.sha, route, sourceId) <==> rows[k].route == route && rows[k].sourceId == sourceId
    {
      assert RecordValid(env.sha, rows[k], k, env.limits);
      KeysAgreeIffSameSource(env.sha, rows[k].route, rows[k].sourceId, route, sourceId);
    }
  }

  /**
   * A well-formed delivery is a repeat if and only if some stored row carries its
   * route and source. One that no row carries is stored unless the inbox is at
   * capacity, and never answered Duplicate or Conflict.
   */
  lemma NewSourceIsStored(env: Env, rows: Rows, incoming: Delivery, out: Outcome, rows': Rows)
    requires StateValid(env, rows) && Normalize(incoming, env.limits).Ok?
    requires KeyIsOwn(env, rows, incoming.route, incoming.sourceId)
    requires Step(env, rows, Enqueue(incoming), out, rows')
    ensures (exists k :: k in rows && rows[k].route == incoming.route && rows[k].sourceId == incoming.sourceId) ==>
      out in {Duplicate, Failed(Conflict), Failed(Io)} && rows' == rows
    ensures (forall k :: k in rows ==> rows[k].route != incoming.route || rows[k].sourceId != incoming.sourceId) ==>
      && out in {Stored, Failed(Full), Failed(Io)}
      && (out == Failed(Full) ==> AtCapacity(env, rows))
      && (out == Stored ==> StoredFresh(env, rows, incoming, rows'))
  {
    hide StateValid, KeyIsOwn, Normalize, SourceKey, AtCapacity, NewRecord, StoredFresh;
    KeyStoredIffSource(env, rows, incoming.route, incoming.sourceId);
    if out == Stored { FreshRow(env, rows, incoming, rows'); }
  }

  lemma FreshRow(env: Env, rows: Rows, incoming: Delivery, rows': Rows)
    requires Normalize(incoming, env.limits).Ok?
    requires EnqueueStep(env, rows, incoming, Stored, rows')
    ensures StoredFresh(env, rows, incoming, rows')
  {
    hide Normalize, SourceKey, AtCapacity, ContentDigest;
    NormalizeKeepsSource(incoming, env.limits);
  }

  /** One more row: the normalized delivery, never claimed, ready at any reading. */
  ghost predicate StoredFresh(env: Env, rows: Rows, incoming: Delivery, rows': Rows)
  {
    var key := SourceKey(env.sha, incoming.route, incoming.sourceId);
    && key !in rows && key in rows' && rows' - {key} == rows
    && Normalize(incoming, env.limits) == match rows'[key].delivery { case Some(d) => Ok(d) case None => Err(Corrupt) }
    && rows'[key].route == incoming.route && rows'[key].sourceId == incoming.sourceId
    && rows'[key].attempts == 0 && rows'[key].fence == 0 && rows'[key].generation == 0
    && (forall now :: 0 <= now ==> Ready(rows', key, now))
  }

  lemma NormalizeKeepsSource(incoming: Delivery, limits: StoredLimits)
    requires Normalize(incoming, limits).Ok?
    ensures Normalize(incoming, limits).value.route == incoming.route
    ensures Normalize(incoming, limits).value.sourceId == incoming.sourceId
    ensures Normalize(incoming, limits).value.body == incoming.body
    ensures Normalize(incoming, limits).value.receivedAt == incoming.receivedAt
  {
  }

  /** Repeating a source is a duplicate exactly when its content is the same. */
  lemma RepeatIsDuplicateIffSameContent(
    env: Env, first: Delivery, again: Delivery, rows: Rows, out: Outcome, rows': Rows)
    requires Normalize(first, env.limits).Ok? && Normalize(again, env.limits).Ok?
    requires first.route == again.route && first.sourceId == again.sourceId
    requires var key := SourceKey(env.sha, first.route, first.sourceId);
             key in rows
             && rows[key].contentDigest == ContentDigest(env.sha, Normalize(first, env.limits).value)
    requires Step(env, rows, Enqueue(again), out, rows') && out != Failed(Io)
    ensures SameContent(first, again) ==> out == Duplicate
    ensures var p := ContentPreimage(Normalize(first, env.limits).value);
            var q := ContentPreimage(Normalize(again, env.limits).value);
            !SameContent(first, again) && (env.sha(p) == env.sha(q) ==> p == q) ==> out == Failed(Conflict)
    ensures rows' == rows
  {
    hide Normalize, SourceKey, ContentPreimage, SameContent, AtCapacity;
    DigestCapturesContent(first, again, env.limits);
  }

  // ----- One row's history -----

  /** The calls that move a row on: each gives it a new generation. */
  ghost predicate Touches(e: Event, k: Text)
  {
    match e.out
    case Issued(_, lease) => lease.key == k
    case Renewed(lease) => lease.key == k
    case Scheduled => e.op.Retry? && e.op.lease.key == k
    case _ => false
  }

  ghost predicate Removes(e: Event, k: Text)
  {
    e.out == Completed && e.op.Complete? && e.op.lease.key == k
  }

  ghost predicate SamePayload(a: Record, b: Record)
  {
    && a.route == b.route && a.sourceId == b.sourceId
    && a.contentDigest == b.contentDigest && a.delivery == b.delivery
  }

  /** What one call may do to one stored row. */
  ghost predicate RowStep(rows: Rows, e: Event, rows': Rows, k: Text)
    requires k in rows
  {
    && (k !in rows' <==> Removes(e, k))
    && (k in rows' ==>
          && SamePayload(rows[k], rows'[k])
          && rows[k].fence <= rows'[k].fence
          && (Touches(e, k) ==> rows'[k].generation == rows[k].generation + 1)
          && (!Touches(e, k) ==> rows'[k] == rows[k]))
  }

  lemma UnchangedRow(rows: Rows, e: Event, k: Text)
    requires k in rows && !Touches(e, k) && !Removes(e, k)
    ensures RowStep(rows, e, rows, k)
  {
  }

  lemma ClaimOnRow(env: Env, rows: Rows, now: int, out: Outcome, rows': Rows, k: Text)
    requires ClaimStep(env, rows, now, out, rows') && k in rows
    ensures RowStep(rows, Event(Claim(now), out), rows', k)
  {
    hide LeastReady, Ready;
    if !out.Issued? { UnchangedRow(rows, Event(Claim(now), out), k); }
  }

  lemma RenewOnRow(env: Env, rows: Rows, lease: DeliveryLease, now: int, out: Outcome, rows': Rows, k: Text)
    requires RenewStep(env, rows, lease, now, out, rows') && k in rows
    ensures RowStep(rows, Event(Renew(lease, now), out), rows', k)
  {
    if !out.Renewed? { UnchangedRow(rows, Event(Renew(lease, now), out), k); }
  }

  lemma RetryOnRow(rows: Rows, lease: DeliveryLease, now: int, at: int, out: Outcome, rows': Rows, k: Text)
    requires RetryStep(rows, lease, now, at, out, rows') && k in rows
    ensures RowStep(rows, Event(Retry(lease, now, at), out), rows', k)
  {
    if !out.Scheduled? { UnchangedRow(rows, Event(Retry(lease, now, at), out), k); }
  }

  lemma CompleteOnRow(rows: Rows, lease: DeliveryLease, now: int, out: Outcome, rows': Rows, k: Text)
    requires CompleteStep(rows, lease, now, out, rows') && k in rows
    ensures RowStep(rows, Event(Complete(lease, now), out), rows', k)
  {
  }

  lemma EnqueueOnRow(env: Env, rows: Rows, incoming: Delivery, out: Outcome, rows': Rows, k: Text)
    requires EnqueueStep(env, rows, incoming, out, rows') && k in rows
    ensures RowStep(rows, Event(Enqueue(incoming), out), rows', k)
  {
    hide RowStep;
    EnqueueKeepsRow(env, rows, incoming, out, rows', k);
    EnqueueMovesNothing(rows, Event(Enqueue(incoming), out), rows', k);
  }

  lemma EnqueueKeepsRow(env: Env, rows: Rows, incoming: Delivery, out: Outcome, rows': Rows, k: Text)
    requires EnqueueStep(env, rows, incoming, out, rows') && k in rows
    ensures k in rows' && rows'[k] == rows[k] && !out.Issued? && !out.Renewed?
  {
    hide Normalize, NewRecord, SourceKey, AtCapacity;
  }

  lemma EnqueueMovesNothing(rows: Rows, e: Event, rows': Rows, k: Text)
    requires e.op.Enqueue? && !e.out.Issued? && !e.out.Renewed?
    requires k in rows && k in rows' && rows'[k] == rows[k]
    ensures RowStep(rows, e, rows', k)
  {
  }

  lemma StepOnRow(env: Env, rows: Rows, e: Event, rows': Rows, k: Text)
    requires Step(env, rows, e.op, e.out, rows') && k in rows
    ensures RowStep(rows, e, rows', k)
  {
    hide ClaimStep, RenewStep, RetryStep, CompleteStep, EnqueueStep;
    if e.out == Failed(Io) && rows' == rows {
      UnchangedRow(rows, e, k);
    } else {
      match e.op
      case Enqueue(incoming) => EnqueueOnRow(env, rows, incoming, e.out, rows', k);
      case Claim(now) => ClaimOnRow(env, rows, now, e.out, rows', k);
      case Renew(lease, now) => RenewOnRow(env, rows, lease, now, e.out, rows', k);
      case Retry(lease, now, at) => RetryOnRow(rows, lease, now, at, e.out, rows', k);
      case Complete(lease, now) => CompleteOnRow(rows, lease, now, e.out, rows', k);
    }
  }

  /** How many calls moved row `k` on between two points of a run. */
  ghost function Moves(events: seq<Event>, k: Text, i: nat, j: nat): nat
    requires i <= j <= |events|
    decreases j
  {
    if i == j then 0
    else Moves(events, k, i, j - 1) + if Touches(events[j - 1], k) then 1 else 0
  }

  ghost predicate KeptBetween(events: seq<Event>, k: Text, i: nat, j: nat)
  {
    forall m :: i <= m < j && m < |events| ==> !Removes(events[m], k)
  }

  /**
   * Within one stored lifetime a row keeps its delivery, its fence never falls,
   * and its generation counts exactly the calls that moved it on.
   */
  lemma {:induction false} RowHistory(
    env: Env, owners: seq<Text>, states: seq<Rows>, events: seq<Event>, k: Text, i: nat, j: nat)
    requires Run(env, owners, states, events) && i <= j <= |events|
    requires k in states[i] && KeptBetween(events, k, i, j)
    ensures k in states[j]
    ensures SamePayload(states[i][k], states[j][k])
    ensures states[i][k].fence <= states[j][k].fence
    ensures states[j][k].generation == states[i][k].generation + Moves(events, k, i, j)
    ensures Moves(events, k, i, j) == 0 ==> states[j][k] == states[i][k]
    decreases j
  {
    hide Step, Touches, Removes, Typed;
    if i < j {
      RowHistory(env, owners, states, events, k, i, j - 1);
      assert StepAt(env, owners, states, events, j - 1);
      assert !Removes(events[j - 1], k);
      StepOnRow(By(env, owners[j - 1]), states[j - 1], events[j - 1], states[j], k);
    }
  }

  ghost predicate Issues(e: Event, lease: DeliveryLease)
  {
    match e.out
    case Issued(_, issued) => issued == lease
    case Renewed(issued) => issued == lease
    case _ => false
  }

  lemma IssuedRow(env: Env, rows: Rows, e: Event, rows': Rows, lease: DeliveryLease)
    requires Step(env, rows, e.op, e.out, rows') && Issues(e, lease)
    ensures lease.key in rows && lease.key in rows'
    ensures rows'[lease.key].state.Claimed? && lease == MakeLease(lease.key, rows'[lease.key])
    ensures Touches(e, lease.key)
  {
    hide EnqueueStep, RetryStep, CompleteStep, LeastReady, Ready, Record.LeaseIsLive, Record.ReadyAt;
    EnqueueIssuesNothing(env, rows, e, rows');
    if e.op.Claim? { LeastReadyIsReady(rows, lease.key, e.op.now); }
  }

  /** Only claims and renewals issue tokens. */
  lemma EnqueueIssuesNothing(env: Env, rows: Rows, e: Event, rows': Rows)
    requires Step(env, rows, e.op, e.out, rows') && (e.out.Issued? || e.out.Renewed?)
    ensures e.op.Claim? || e.op.Renew?
  {
    hide Normalize, NewRecord, SourceKey, AtCapacity, ClaimStep, RenewStep;
  }

  /**
   * A token is accepted exactly while it is the last one issued for its row and
   * the reading is before its expiry, whatever the clock did in between.
   */
  lemma TokenLiveIffLatest(
    env: Env, owners: seq<Text>, states: seq<Rows>, events: seq<Event>, i: nat, j: nat, lease: DeliveryLease, now: int)
    requires Run(env, owners, states, events) && i < j <= |events|
    requires Issues(events[i], lease) && KeptBetween(events, lease.key, i + 1, j)
    requires 0 <= now
    ensures Holds(states[j], lease, now)
       <==> Moves(events, lease.key, i + 1, j) == 0 && now < lease.expiresAt
  {
    hide Step, Touches, Removes, Typed;
    assert StepAt(env, owners, states, events, i);
    IssuedRow(By(env, owners[i]), states[i], events[i], states[i + 1], lease);
    RowHistory(env, owners, states, events, lease.key, i + 1, j);
  }

  ghost predicate Presents(op: Op, lease: DeliveryLease)
  {
    (op.Renew? || op.Retry? || op.Complete?) && op.lease == lease
  }

  lemma StaleTokenIsLost(env: Env, rows: Rows, e: Event, rows': Rows, lease: DeliveryLease)
    requires Step(env, rows, e.op, e.out, rows') && Presents(e.op, lease)
    requires lease.key in rows && !Holds(rows, lease, e.op.now)
    ensures e.out in {Lost, Failed(Clock), Failed(Io)} && rows' == rows
    ensures e.op.now >= 0 && (e.op.Retry? ==> e.op.now <= e.op.availableAt) && e.out != Failed(Io) ==>
      e.out == Lost
  {
    hide ClaimStep, EnqueueStep, Record.LeaseIsLive;
  }

  /** Every superseded token is answered `Lost` by renew, retry and complete, and changes nothing. */
  lemma SupersededTokenIsLost(
    env: Env, owners: seq<Text>, states: seq<Rows>, events: seq<Event>, i: nat, j: nat, lease: DeliveryLease)
    requires Run(env, owners, states, events) && i < j < |events|
    requires Issues(events[i], lease) && KeptBetween(events, lease.key, i + 1, j)
    requires Moves(events, lease.key, i + 1, j) > 0
    requires Presents(events[j].op, lease)
    ensures events[j].out in {Lost, Failed(Clock), Failed(Io)}
    ensures
      var e := events[j];
      e.op.now >= 0 && (e.op.Retry? ==> e.op.now <= e.op.availableAt) && e.out != Failed(Io) ==> e.out == Lost
    ensures states[j + 1] == states[j]
  {
    hide Touches, Removes, Typed, Step;
    assert StepAt(env, owners, states, events, j) && StepAt(env, owners, states, events, i);
    IssuedRow(By(env, owners[i]), states[i], events[i], states[i + 1], lease);
    RowHistory(env, owners, states, events, lease.key, i + 1, j);
    if events[j].op.now >= 0 {
      TokenLiveIffLatest(env, owners, states, events, i, j, lease, events[j].op.now);
    }
    StaleTokenIsLost(By(env, owners[j]), states[j], events[j], states[j + 1], lease);
  }

  lemma StoredRow(env: Env, rows: Rows, incoming: Delivery, rows': Rows)
    requires Step(env, rows, Enqueue(incoming), Stored, rows')
    ensures Normalize(incoming, env.limits).Ok?
    ensures var key := SourceKey(env.sha, incoming.route, incoming.sourceId);
            && key !in rows && key in rows'
            && rows'[key].delivery == Some(Normalize(incoming, env.limits).value)
  {
    hide Normalize, SourceKey, AtCapacity, ContentDigest;
  }

  lemma ClaimHandsOutStored(env: Env, rows: Rows, e: Event, rows': Rows)
    requires Step(env, rows, e.op, e.out, rows') && e.out.Issued?
    ensures e.out.lease.key in rows && rows[e.out.lease.key].delivery == Some(e.out.delivery)
  {
    hide EnqueueStep, RetryStep, CompleteStep, LeastReady, Ready, Record.LeaseIsLive, Record.ReadyAt;
    EnqueueIssuesNothing(env, rows, e, rows');
    if e.op.Claim? { LeastReadyIsReady(rows, e.out.lease.key, e.op.now); }
  }

  /** A delivery stored once is claimed unaltered until its row is completed. */
  lemma StoredDeliveryIsKept(
    env: Env, owners: seq<Text>, states: seq<Rows>, events: seq<Event>, i: nat, j: nat, incoming: Delivery)
    requires Run(env, owners, states, events) && i < j <= |events|
    requires events[i] == Event(Enqueue(incoming), Stored)
    requires KeptBetween(events, SourceKey(env.sha, incoming.route, incoming.sourceId), i + 1, j)
    ensures var key := SourceKey(env.sha, incoming.route, incoming.sourceId);
            var stored := Normalize(incoming, env.limits);
            && stored.Ok? && key in states[j] && states[j][key].delivery == Some(stored.value)
            && (j < |events| && events[j].out.Issued? && events[j].out.lease.key == key ==>
                  events[j].out.delivery == stored.value)
  {
    hide Typed, Step, Normalize, SourceKey;
    var key := SourceKey(env.sha, incoming.route, incoming.sourceId);
    assert StepAt(env, owners, states, events, i);
    StoredRow(By(env, owners[i]), states[i], incoming, states[i + 1]);
    RowHistory(env, owners, states, events, key, i + 1, j);
    if j < |events| && events[j].out.Issued? {
      assert StepAt(env, owners, states, events, j);
      ClaimHandsOutStored(By(env, owners[j]), states[j], events[j], states[j + 1]);
    }
  }

  // ----- Across lifetimes -----

  /** The first claim's token for a delivery, in any lifetime of its row. */
  function FirstClaim(env: Env, incoming: Delivery, now: int): Record
    requires Normalize(incoming, env.limits).Ok?
  {
    ClaimedRow(env, NewRecord(env.sha, Normalize(incoming, env.limits).value), now)
  }

  lemma OneLifetime(env: Env, incoming: Delivery, now: int, key: Text)
    requires Accepted(env.limits) && Normalize(incoming, env.limits).Ok?
    requires 0 <= now && now + env.limits.leaseMillis <= I64_MAX
    requires key == SourceKey(env.sha, incoming.route, incoming.sourceId)
    ensures var delivery := Normalize(incoming, env.limits).value;
            var stored: Rows := map[key := NewRecord(env.sha, delivery)];
            var leased: Rows := map[key := FirstClaim(env, incoming, now)];
            var lease := MakeLease(key, FirstClaim(env, incoming, now));
            && Step(env, map[], Enqueue(incoming), Stored, stored)
            && Step(env, stored, Claim(now), Issued(delivery, lease), leased)
            && Step(env, leased, Complete(lease, now), Completed, map[])
            && Holds(leased, lease, now)
  {
    hide Normalize, SourceKey, ContentDigest, RecordValid, AtCapacity;
    EmptyIsNotAtCapacity(env);
    LexReflexive(key);
    var delivery := Normalize(incoming, env.limits).value;
    var stored: Rows := map[key := NewRecord(env.sha, delivery)];
    var leased: Rows := map[key := FirstClaim(env, incoming, now)];
    assert map[][key := stored[key]] == stored && stored[key := leased[key]] == leased;
    assert leased - {key} == map[];
    assert Ready(stored, key, now);
  }

  /**
   * A completed row that is enqueued again starts its counters over, so a claim
   * at the same reading hands out the very token of the earlier lifetime.
   */
  lemma TokenRecursAcrossLifetimes(env: Env, incoming: Delivery, now: int)
    returns (owners: seq<Text>, states: seq<Rows>, events: seq<Event>)
    requires Accepted(env.limits) && ValidOwner(env.owner) && incoming.receivedAt <= I64_MAX
    requires Normalize(incoming, env.limits).Ok?
    requires 0 <= now && now + env.limits.leaseMillis <= I64_MAX
    ensures Run(env, owners, states, events) && |events| == 5 && states[0] == map[]
    ensures events[2].out == Completed
    ensures events[1].out.Issued? && events[4].out.Issued?
    ensures events[1].out.lease == events[4].out.lease
    ensures Holds(states[5], events[1].out.lease, now)
  {
    hide Normalize, SourceKey, NewRecord, Step, Holds;
    var key := SourceKey(env.sha, incoming.route, incoming.sourceId);
    var delivery := Normalize(incoming, env.limits).value;
    OneLifetime(env, incoming, now, key);
    var lease := MakeLease(key, FirstClaim(env, incoming, now));
    var stored: Rows := map[key := NewRecord(env.sha, delivery)];
    var leased: Rows := map[key := FirstClaim(env, incoming, now)];
    var enqueue, claim := Event(Enqueue(incoming), Stored), Event(Claim(now), Issued(delivery, lease));
    owners := [env.owner, env.owner, env.owner, env.owner, env.owner];
    states := [map[], stored, leased, map[], stored, leased];
    events := [enqueue, claim, Event(Complete(lease, now), Completed), enqueue, claim];
    assert By(env, env.owner) == env;
    forall i | 0 <= i < 5 ensures StepAt(env, owners, states, events, i) {
      assert i in [0, 1, 2, 3, 4];
    }
  }

  lemma EmptyIsNotAtCapacity(env: Env)
    requires Accepted(env.limits)
    ensures !AtCapacity(env, map[])
  {
  }

  /**
   * Exactly when a token of any earlier lifetime is accepted again: while the
   * latest lease stands, if it equals that lease in all but the attempt number and
   * the lease has not ended. A later lease whose fresh expiry lies past the old
   * token's rules it out.
   */
  lemma EarlierTokenAcceptedIffSame(
    env: Env, owners: seq<Text>, states: seq<Rows>, events: seq<Event>, j: nat, m: nat, earlier: DeliveryLease,
    latest: DeliveryLease, now: int)
    requires Run(env, owners, states, events) && j < m <= |events| && 0 <= now
    requires Issues(events[j], latest) && latest.key == earlier.key
    requires KeptBetween(events, latest.key, j + 1, m) && Moves(events, latest.key, j + 1, m) == 0
    requires events[j].op.Claim? || events[j].op.Renew?
    ensures Holds(states[m], earlier, now)
       <==> earlier.(attempt := 0) == latest.(attempt := 0) && now < latest.expiresAt
    ensures events[j].op.now + env.limits.leaseMillis > earlier.expiresAt ==>
      !Holds(states[m], earlier, now)
  {
    hide Touches, Removes, Typed, Normalize, NewRecord, SourceKey, AtCapacity;
    assert StepAt(env, owners, states, events, j);
    IssuedRow(By(env, owners[j]), states[j], events[j], states[j + 1], latest);
    RowHistory(env, owners, states, events, latest.key, j + 1, m);
  }

  /**
   * The first claims of two lifetimes issue the same token exactly when one opening
   * made both and they read the same clock value.
   */
  lemma FirstTokensCoincide(env: Env, owner: Text, a: Delivery, b: Delivery, key: Text, now: int, later: int)
    requires Normalize(a, env.limits).Ok? && Normalize(b, env.limits).Ok?
    ensures
      MakeLease(key, FirstClaim(env, a, now)) == MakeLease(key, FirstClaim(By(env, owner), b, later))
      <==> now == later && env.owner == owner
  {
    hide Normalize, SourceKey, ContentDigest;
  }
}

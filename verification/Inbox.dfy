/** What one inbox call may answer and do to the stored rows. */
module InboxProtocol {
  import opened Machine
  import opened Bytes
  import opened Totals
  import opened InboxLimits
  import opened Deliveries
  import opened InboxRecord

  type Rows = map<Text, Record>

  /** The hash, the accepted limits and the random owner of one open inbox. */
  datatype Env = Env(sha: Hash, limits: StoredLimits, owner: Text)

  datatype Op =
    | Enqueue(incoming: Delivery)
    | Claim(now: int)
    | Renew(lease: DeliveryLease, now: int)
    | Retry(lease: DeliveryLease, now: int, availableAt: int)
    | Complete(lease: DeliveryLease, now: int)

  datatype Outcome =
    | Stored
    | Duplicate
    | Issued(delivery: Delivery, lease: DeliveryLease)
    | Waiting(readyAt: int)
    | Empty
    | Renewed(lease: DeliveryLease)
    | Scheduled
    | Completed
    | Lost
    | Failed(error: InboxError)

  /** Clock readings and receipt times are 64-bit signed in the source. */
  ghost predicate Typed(op: Op)
  {
    match op
    case Enqueue(incoming) => incoming.receivedAt <= I64_MAX
    case Retry(_, _, availableAt) => availableAt <= I64_MAX
    case Claim(_) => true
    case Renew(_, _) => true
    case Complete(_, _) => true
  }

  function Sizes(rows: Rows): map<Text, nat>
  {
    map k | k in rows :: RowBytes(rows[k])
  }

  /** The invariant: sound rows, and one spare reservation beside theirs. */
  ghost predicate StateValid(env: Env, rows: Rows)
  {
    && Accepted(env.limits)
    && ValidOwner(env.owner)
    && |rows| <= env.limits.maxRecords
    && (forall k :: k in rows ==> RecordValid(env.sha, rows[k], k, env.limits))
    && (rows != map[] ==>
          (|rows| + 1) * ExactReservation(env.limits) <= env.limits.maxBytes)
  }

  /** Stored bytes never exceed the rows' reservations. */
  lemma BytesWithinReservations(env: Env, rows: Rows)
    requires StateValid(env, rows)
    ensures forall k :: k in rows ==> RowBytes(rows[k]) <= ExactReservation(env.limits)
    ensures Total(Sizes(rows)) <= |rows| * ExactReservation(env.limits)
  {
    hide RowBytes, RecordValid, ExactReservation;
    forall k | k in rows ensures RowBytes(rows[k]) <= ExactReservation(env.limits) {
      RowFitsReservation(env.sha, rows[k], k, env.limits);
    }
    assert Sizes(rows).Keys == rows.Keys;
    assert |Sizes(rows)| == |rows| by { assert |Sizes(rows).Keys| == |rows.Keys|; }
    TotalBound(Sizes(rows), ExactReservation(env.limits));
  }

  ghost predicate AtCapacity(env: Env, rows: Rows)
  {
    || |rows| >= env.limits.maxRecords
    || (|rows| + 2) * ExactReservation(env.limits) > env.limits.maxBytes
  }

  ghost predicate EnqueueStep(env: Env, rows: Rows, incoming: Delivery, out: Outcome, rows': Rows)
  {
    var normalized := Normalize(incoming, env.limits);
    if normalized.Err? then
      rows' == rows && out == Failed(InvalidDelivery)
    else
      var key := SourceKey(env.sha, incoming.route, incoming.sourceId);
      var record := NewRecord(env.sha, normalized.value);
      if key in rows then
        && rows' == rows
        && out == if rows[key].contentDigest == record.contentDigest then Duplicate
                  else Failed(Conflict)
      else if AtCapacity(env, rows) then
        rows' == rows && out == Failed(Full)
      else
        out == Stored && rows' == rows[key := record]
  }

  predicate Ready(rows: Rows, k: Text, now: int)
  {
    k in rows && rows[k].ReadyAt() <= now
  }

  ghost predicate LeastReady(rows: Rows, k: Text, now: int)
  {
    Ready(rows, k, now) && forall other :: Ready(rows, other, now) ==> LexLeq(k, other)
  }

  /** The claimed form of a ready row: one attempt, one fence, one generation on. */
  function ClaimedRow(env: Env, row: Record, now: int): Record
  {
    row.(attempts := row.attempts + 1,
         fence := row.fence + 1,
         generation := row.generation + 1,
         state := Claimed(env.owner, now + env.limits.leaseMillis))
  }

  ghost predicate ClaimStep(env: Env, rows: Rows, now: int, out: Outcome, rows': Rows)
  {
    match out
    case Issued(delivery, lease) =>
      && 0 <= now
      && LeastReady(rows, lease.key, now)
      && rows' == rows[lease.key := ClaimedRow(env, rows[lease.key], now)]
      && rows[lease.key].delivery == Some(delivery)
      && lease == MakeLease(lease.key, rows'[lease.key])
      && now + env.limits.leaseMillis <= I64_MAX
      && rows[lease.key].generation < U64_MAX
    case Waiting(readyAt) =>
      && 0 <= now < readyAt && rows' == rows
      && (exists k :: k in rows && rows[k].ReadyAt() == readyAt)
      && (forall k :: k in rows ==> readyAt <= rows[k].ReadyAt())
    case Empty =>
      0 <= now && rows == map[] && rows' == rows
    case Failed(error) =>
      && rows' == rows
      && (error == Clock ==>
            || now < 0
            || (now + env.limits.leaseMillis > I64_MAX && exists k :: Ready(rows, k, now)))
      && (error == Corrupt ==> exists k :: LeastReady(rows, k, now) && rows[k].generation >= U64_MAX)
      && error in {Clock, Corrupt}
    case _ => false
  }

  /** How a call that presents a token must answer before it may act. */
  ghost predicate Refused(rows: Rows, lease: DeliveryLease, now: int, out: Outcome)
  {
    if now < 0 then out == Failed(Clock)
    else if lease.key !in rows then out == Failed(Corrupt)
    else out == Lost
  }

  ghost predicate Holds(rows: Rows, lease: DeliveryLease, now: int)
  {
    0 <= now && lease.key in rows && rows[lease.key].LeaseIsLive(lease, now)
  }

  function RenewedRow(env: Env, row: Record, now: int): Record
    requires row.state.Claimed?
  {
    row.(generation := row.generation + 1,
         state := Claimed(row.state.owner, Max(now + env.limits.leaseMillis, row.state.expiresAt)))
  }

  ghost predicate RenewStep(env: Env, rows: Rows, lease: DeliveryLease, now: int, out: Outcome, rows': Rows)
  {
    if !Holds(rows, lease, now) then
      rows' == rows && Refused(rows, lease, now, out)
    else
      var row := rows[lease.key];
      if now + env.limits.leaseMillis > I64_MAX then rows' == rows && out == Failed(Clock)
      else if row.generation >= U64_MAX then rows' == rows && out == Failed(Corrupt)
      else
        && rows' == rows[lease.key := RenewedRow(env, row, now)]
        && out == Renewed(MakeLease(lease.key, rows'[lease.key]))
  }

  function RetriedRow(row: Record, availableAt: int): Record
  {
    row.(generation := row.generation + 1, state := Pending(availableAt))
  }

  ghost predicate RetryStep(
    rows: Rows, lease: DeliveryLease, now: int, availableAt: int, out: Outcome, rows': Rows)
  {
    if availableAt < now then
      rows' == rows && out == Failed(Clock)
    else if !Holds(rows, lease, now) then
      rows' == rows && Refused(rows, lease, now, out)
    else
      var row := rows[lease.key];
      if row.generation >= U64_MAX then rows' == rows && out == Failed(Corrupt)
      else
        out == Scheduled && rows' == rows[lease.key := RetriedRow(row, availableAt)]
  }

  ghost predicate CompleteStep(rows: Rows, lease: DeliveryLease, now: int, out: Outcome, rows': Rows)
  {
    if !Holds(rows, lease, now) then
      rows' == rows && Refused(rows, lease, now, out)
    else
      out == Completed && rows' == rows - {lease.key}
  }

  /** One call: the rules above, or an operating-system failure that changed nothing. */
  ghost predicate Step(env: Env, rows: Rows, op: Op, out: Outcome, rows': Rows)
  {
    || (out == Failed(Io) && rows' == rows)
    || match op
       case Enqueue(incoming) => EnqueueStep(env, rows, incoming, out, rows')
       case Claim(now) => ClaimStep(env, rows, now, out, rows')
       case Renew(lease, now) => RenewStep(env, rows, lease, now, out, rows')
       case Retry(lease, now, availableAt) => RetryStep(rows, lease, now, availableAt, out, rows')
       case Complete(lease, now) => CompleteStep(rows, lease, now, out, rows')
  }

  lemma {:induction false} RowChanged(env: Env, rows: Rows, key: Text, record: Record)
    requires StateValid(env, rows) && key in rows
    requires RecordValid(env.sha, record, key, env.limits)
    ensures StateValid(env, rows[key := record])
  {
    hide RecordValid, ExactReservation, Accepted, ValidOwner;
    assert rows[key := record].Keys == rows.Keys;
    assert |rows[key := record]| == |rows|;
  }

  lemma RowAdded(env: Env, rows: Rows, key: Text, record: Record)
    requires StateValid(env, rows) && key !in rows && !AtCapacity(env, rows)
    requires RecordValid(env.sha, record, key, env.limits)
    ensures StateValid(env, rows[key := record])
  {
    hide RecordValid, ExactReservation, Accepted, ValidOwner;
    assert rows[key := record].Keys == rows.Keys + {key};
    assert |rows[key := record]| == |rows| + 1;
  }

  lemma RowRemoved(env: Env, rows: Rows, key: Text)
    requires StateValid(env, rows) && key in rows
    ensures StateValid(env, rows - {key})
  {
    hide RecordValid, ExactReservation, Accepted, ValidOwner;
    var n, reserved := |rows|, ExactReservation(env.limits);
    assert (rows - {key}).Keys == rows.Keys - {key};
    assert |rows - {key}| + 1 == n;
    assert n * reserved <= (n + 1) * reserved;
  }

  lemma ClaimedRowIsValid(env: Env, row: Record, key: Text, now: int)
    requires RecordValid(env.sha, row, key, env.limits) && ValidOwner(env.owner)
    requires 0 <= now && env.limits.leaseMillis >= 1 && now + env.limits.leaseMillis <= I64_MAX
    requires row.generation < U64_MAX
    ensures RecordValid(env.sha, ClaimedRow(env, row, now), key, env.limits)
  {
    hide DeliveryValid, SourceKey, ContentDigest, ValidLabel, ValidOwner;
  }

  /** A claim's two record transitions, and what they amount to on a ready row. */
  function BeginClaim(env: Env, row: Record, now: int): Result<Record, InboxError>
  {
    var begun :- row.BeginAttempt();
    begun.Lease(env.owner, now, env.limits.leaseMillis)
  }

  lemma BeginClaimValue(env: Env, row: Record, key: Text, now: int)
    requires RecordValid(env.sha, row, key, env.limits) && 0 <= now && row.ReadyAt() <= now
    ensures row.attempts <= row.generation && row.delivery.Some?
    ensures BeginClaim(env, row, now) ==
            if row.attempts >= U64_MAX then Err(Corrupt)
            else if now + env.limits.leaseMillis > I64_MAX then Err(Clock)
            else if row.generation >= U64_MAX then Err(Corrupt)
            else Ok(ClaimedRow(env, row, now))
  {
    hide DeliveryValid, SourceKey, ContentDigest, ValidLabel, ValidOwner;
  }

  lemma BeginClaimMeans(env: Env, rows: Rows, key: Text, now: int)
    requires StateValid(env, rows) && 0 <= now && LeastReady(rows, key, now)
    ensures key in rows
    ensures var row := rows[key];
            match BeginClaim(env, row, now)
            case Ok(claimed) =>
              && claimed == ClaimedRow(env, row, now) && claimed.delivery.Some?
              && claimed.state.Claimed?
              && RecordValid(env.sha, claimed, key, env.limits)
              && Step(env, rows, Claim(now), Issued(claimed.delivery.value, MakeLease(key, claimed)),
                      rows[key := claimed])
            case Err(error) =>
              Step(env, rows, Claim(now), Failed(error), rows) && error != Io
  {
    hide RecordValid, ExactReservation, ValidOwner, BeginClaim, LeastReady, Step, Record.ReadyAt;
    LeastReadyIsReady(rows, key, now);
    BeginClaimValue(env, rows[key], key, now);
    if BeginClaim(env, rows[key], now).Ok? {
      ClaimedRowIsValid(env, rows[key], key, now);
      ClaimIssues(env, rows, key, now);
    } else {
      ClaimFails(env, rows, key, now, BeginClaim(env, rows[key], now).error);
    }
  }

  lemma ClaimIssues(env: Env, rows: Rows, key: Text, now: int)
    requires 0 <= now && key in rows && LeastReady(rows, key, now) && rows[key].delivery.Some?
    requires now + env.limits.leaseMillis <= I64_MAX && rows[key].generation < U64_MAX
    ensures
      var claimed := ClaimedRow(env, rows[key], now);
      Step(env, rows, Claim(now), Issued(claimed.delivery.value, MakeLease(key, claimed)), rows[key := claimed])
  {
    hide LeastReady, Ready;
  }

  lemma ClaimFails(env: Env, rows: Rows, key: Text, now: int, error: InboxError)
    requires key in rows && LeastReady(rows, key, now)
    requires error in {Clock, Corrupt}
    requires error == Clock ==> now + env.limits.leaseMillis > I64_MAX
    requires error == Corrupt ==> rows[key].generation >= U64_MAX
    ensures Step(env, rows, Claim(now), Failed(error), rows)
  {
    hide Record.ReadyAt;
  }

  lemma LeastReadyIsReady(rows: Rows, key: Text, now: int)
    requires LeastReady(rows, key, now)
    ensures key in rows && rows[key].ReadyAt() <= now
  {
  }

  lemma IoFailure(env: Env, rows: Rows, op: Op)
    ensures Step(env, rows, op, Failed(Io), rows)
  {
  }

  lemma RenewMeans(env: Env, row: Record, lease: DeliveryLease, now: int)
    requires row.LeaseIsLive(lease, now)
    ensures row.Lease(lease.owner, now, env.limits.leaseMillis) ==
            if now + env.limits.leaseMillis > I64_MAX then Err(Clock)
            else if row.generation >= U64_MAX then Err(Corrupt)
            else Ok(RenewedRow(env, row, now))
  {
  }

  lemma RenewedRowIsValid(env: Env, row: Record, key: Text, now: int)
    requires RecordValid(env.sha, row, key, env.limits) && row.state.Claimed?
    requires 0 <= now && env.limits.leaseMillis >= 1 && now + env.limits.leaseMillis <= I64_MAX
    requires row.generation < U64_MAX
    ensures RecordValid(env.sha, RenewedRow(env, row, now), key, env.limits)
  {
    hide DeliveryValid, SourceKey, ContentDigest, ValidLabel, ValidOwner;
  }

  lemma RetriedRowIsValid(env: Env, row: Record, key: Text, availableAt: int)
    requires RecordValid(env.sha, row, key, env.limits)
    requires 0 <= availableAt <= I64_MAX && row.generation < U64_MAX
    ensures RecordValid(env.sha, RetriedRow(row, availableAt), key, env.limits)
  {
    hide DeliveryValid, SourceKey, ContentDigest, ValidLabel, ValidOwner;
  }

  /** Every call keeps the invariant, whatever the clock says. */
  lemma StepKeepsValid(env: Env, rows: Rows, op: Op, out: Outcome, rows': Rows)
    requires StateValid(env, rows) && Typed(op) && Step(env, rows, op, out, rows')
    ensures StateValid(env, rows')
  {
    hide RecordValid, ExactReservation, NewRecord, Normalize, SourceKey, AtCapacity;
    hide RenewedRow, ClaimedRow, RetriedRow, ValidOwner;
    if rows' != rows {
      match op
      case Enqueue(incoming) =>
        EnqueuedRowIsValid(env, incoming);
        RowAdded(env, rows, SourceKey(env.sha, incoming.route, incoming.sourceId),
                 NewRecord(env.sha, Normalize(incoming, env.limits).value));
      case Claim(now) =>
        var key := out.lease.key;
        ClaimedRowIsValid(env, rows[key], key, now);
        RowChanged(env, rows, key, ClaimedRow(env, rows[key], now));
      case Renew(lease, now) =>
        RenewedRowIsValid(env, rows[lease.key], lease.key, now);
        RowChanged(env, rows, lease.key, RenewedRow(env, rows[lease.key], now));
      case Retry(lease, now, availableAt) =>
        RetriedRowIsValid(env, rows[lease.key], lease.key, availableAt);
        RowChanged(env, rows, lease.key, RetriedRow(rows[lease.key], availableAt));
      case Complete(lease, now) =>
        RowRemoved(env, rows, lease.key);
    }
  }

  lemma EnqueuedRowIsValid(env: Env, incoming: Delivery)
    requires Normalize(incoming, env.limits).Ok? && incoming.receivedAt <= I64_MAX
    ensures RecordValid(env.sha, NewRecord(env.sha, Normalize(incoming, env.limits).value),
                        SourceKey(env.sha, incoming.route, incoming.sourceId), env.limits)
  {
    hide RecordValid, NewRecord, SourceKey;
    NewRecordIsValid(env.sha, incoming, env.limits);
  }
}

/** The durable inbox (controller/service/src/inbox.rs, store.rs, store/entries.rs). */
module InboxService {
  import opened Machine
  import opened Bytes
  import opened Sorting
  import opened Totals
  import opened InboxLimits
  import opened Deliveries
  import opened InboxRecord
  import opened InboxProtocol
  import opened Json

  class Inbox {
    const env: Env
    var rows: Rows

    ghost predicate Valid()
      reads this
    {
      StateValid(env, rows)
    }

    constructor (sha: Hash, limits: StoredLimits, owner: Text)
      requires Accepted(limits) && ValidOwner(owner)
      ensures Valid() && rows == map[] && env == Env(sha, limits, owner)
    {
      env := Env(sha, limits, owner);
      rows := map[];
    }

    constructor Over(env: Env, rows: Rows)
      ensures this.env == env && this.rows == rows
    {
      this.env := env;
      this.rows := rows;
    }

    /**
     * Opens a root that already holds rows, under a new owner. It is refused exactly
     * when some row is unsound or a ceiling is exceeded; rows left by any earlier
     * opening are accepted as they are.
     */
    static method Open(env: Env, rows: Rows) returns (r: Result<Inbox, InboxError>)
      requires Accepted(env.limits) && ValidOwner(env.owner)
      ensures r.Ok? <==> ScanSound(env, rows)
      ensures r.Ok? ==> fresh(r.value) && r.value.env == env && r.value.rows == rows
      ensures forall owner :: ValidOwner(owner) && StateValid(env.(owner := owner), rows) ==> r.Ok? && r.value.Valid()
    {
      hide RecordValid, RowBytes, ScanSound, Accepted, ExactReservation, ValidOwner, Sizes, Total;
      var inbox := new Inbox.Over(env, rows);
      var scanned := inbox.Scan();
      forall owner | ValidOwner(owner) && StateValid(env.(owner := owner), rows)
        ensures ScanSound(env, rows) && StateValid(env, rows)
      {
        ValidForOwner(env, owner, rows);
      }
      r := if scanned.Ok? then Ok(inbox) else Err(scanned.error);
    }

    /** Reads every row, refusing any that no inbox under these limits could have written. */
    method Scan() returns (stored: Result<nat, InboxError>)
      ensures stored == if ScanSound(env, rows) then Ok(Total(Sizes(rows))) else Err(Corrupt)
    {
      hide RecordValid, RowBytes, RowSound, Sizes, Total, StoredLimits.RecordReservation;
      var reservation := env.limits.RecordReservation();
      if reservation.None? || |rows| > env.limits.maxRecords { return Err(Corrupt); }
      var bytes := 0;
      var pending := rows.Keys;
      NothingRead(rows);
      while pending != {}
        invariant pending <= rows.Keys
        invariant forall k :: k in rows && k !in pending ==> RowSound(env, rows, k)
        invariant bytes == Total(Sizes(rows - pending)) <= env.limits.maxBytes
        decreases pending
      {
        var key :| key in pending;
        ReadOneMore(rows, pending, key);
        bytes := bytes + RowBytes(rows[key]);
        if !RowSound(env, rows, key) || bytes > env.limits.maxBytes { return Err(Corrupt); }
        pending := pending - {key};
      }
      assert rows - pending == rows;
      stored := Ok(bytes);
    }

    /** Accounts for and atomically writes one row file. */
    method Save(stored: nat, key: Text, record: Record, oldBytes: nat, diskOk: bool)
      returns (r: Result<(), InboxError>)
      modifies this`rows
      ensures Fits(env, stored, key, record, oldBytes) ==> r == if diskOk then Ok(()) else Err(Io)
      ensures !Fits(env, stored, key, record, oldBytes) ==> r.Err? && r.error in {Full, Corrupt}
      ensures rows == if r.Ok? then old(rows)[key := record] else old(rows)
    {
      hide RowBytes, ValidKey;
      if !ValidKey(key) { return Err(Corrupt); }
      var encoded := RowBytes(record);
      var reservation := env.limits.RecordReservation();
      if reservation.None? { return Err(Corrupt); }
      if encoded > reservation.value || encoded > env.limits.maxRecordBytes { return Err(Full); }
      if stored < oldBytes || AddU64(stored - oldBytes, encoded).None? { return Err(Corrupt); }
      var withCopy := AddU64(stored, encoded);
      if withCopy.None? || withCopy.value > env.limits.maxBytes { return Err(Full); }
      if !diskOk { return Err(Io); }
      rows := rows[key := record];
      r := Ok(());
    }

    /** Deletes one row file. */
    method Remove(key: Text, diskOk: bool) returns (r: Result<(), InboxError>)
      modifies this`rows
      ensures r == if !ValidKey(key) then Err(Corrupt)
                   else if diskOk && key in old(rows) then Ok(()) else Err(Io)
      ensures rows == if r.Ok? then old(rows) - {key} else old(rows)
    {
      if !ValidKey(key) { return Err(Corrupt); }
      if !diskOk || key !in rows { return Err(Io); }
      rows := rows - {key};
      r := Ok(());
    }

    method EnqueueDelivery(incoming: Delivery, diskOk: bool) returns (out: Outcome)
      requires Valid() && Typed(Enqueue(incoming))
      modifies this`rows
      ensures Valid() && Step(env, old(rows), Enqueue(incoming), out, rows)
      ensures diskOk ==> out != Failed(Io)
    {
      hide RecordValid, ExactReservation, NewRecord, Normalize, SourceKey, RowBytes, ValidOwner;
      hide ScanSound, Fits;
      var normalized := Normalize(incoming, env.limits);
      NormalizeError(incoming, env.limits);
      if normalized.Err? { return Failed(normalized.error); }
      var key := SourceKey(env.sha, incoming.route, incoming.sourceId);
      var record := NewRecord(env.sha, normalized.value);
      ValidScans(env, rows);
      var scanned := Scan();
      if key in rows {
        return if rows[key].contentDigest == record.contentDigest then Duplicate else Failed(Conflict);
      }
      var reserved := ReserveTransition(|rows| + 1);
      if |rows| >= env.limits.maxRecords || !reserved { return Failed(Full); }
      EnqueuedRowIsValid(env, incoming);
      NewRowFits(env, rows, key, record);
      var saved := Save(scanned.value, key, record, 0, diskOk);
      out := if saved.Ok? then Stored else Failed(saved.error);
      StepKeepsValid(env, old(rows), Enqueue(incoming), out, rows);
    }

    /** Whether the rows and one spare copy fit at their worst-case size. */
    method ReserveTransition(rowsAfter: nat) returns (fits: bool)
      requires Valid()
      ensures fits <==> (rowsAfter + 1) * ExactReservation(env.limits) <= env.limits.maxBytes
    {
      hide RecordValid, ValidOwner;
      ReservationIsExact(env.limits);
      var reservation := env.limits.RecordReservation();
      var bytes := MulU64(rowsAfter + 1, reservation.value);
      fits := bytes.Some? && bytes.value <= env.limits.maxBytes;
    }

    /** Picks the least ready key, or the exact next time one becomes ready. */
    method Select(now: int) returns (selected: Option<Text>, nextReady: Option<int>)
      ensures selected.Some? ==> LeastReady(rows, selected.value, now)
      ensures selected.None? ==> forall k :: k in rows ==> now < rows[k].ReadyAt()
      ensures selected.None? && nextReady.None? ==> rows == map[]
      ensures selected.None? && nextReady.Some? ==>
        && (exists k :: k in rows && rows[k].ReadyAt() == nextReady.value)
        && forall k :: k in rows ==> nextReady.value <= rows[k].ReadyAt()
    {
      hide LexLeq, Record.ReadyAt, LeastReady, StrictlyAscending, Ready, Soonest;
      var keys := InKeyOrder(rows.Keys);
      selected, nextReady := None, None;
      NoneListed(rows);
      ghost var at := 0;
      for i := 0 to |keys|
        invariant selected.Some? ==> at < i && selected.value == keys[at] && Ready(rows, keys[at], now)
        invariant forall j :: 0 <= j < (if selected.Some? then at else i) ==> !Ready(rows, keys[j], now)
        invariant selected.None? ==> Soonest(rows, keys[..i], nextReady)
      {
        var key := keys[i];
        assert key in keys;
        ReadyMeans(rows, key, now);
        var readyAt := rows[key].ReadyAt();
        if readyAt <= now && selected.None? {
          selected, at := Some(key), i;
        } else {
          if selected.None? {
            SoonerOf(rows, keys[..i], nextReady, key);
            assert keys[..i + 1] == keys[..i] + [key];
          }
          nextReady := Some(if nextReady.None? then readyAt else Min(nextReady.value, readyAt));
        }
      }
      assert keys[..|keys|] == keys;
      if selected.Some? {
        FirstIsLeast(rows, keys, at, now);
      } else {
        NoneIsReady(rows, keys, nextReady, now);
      }
    }

    method ClaimNext(now: int, diskOk: bool) returns (out: Outcome)
      requires Valid()
      modifies this`rows
      ensures Valid() && Step(env, old(rows), Claim(now), out, rows)
      ensures diskOk ==> out != Failed(Io)
    {
      hide RecordValid, ExactReservation, RowBytes, ValidOwner, ScanSound, Sizes, Accepted;
      if now < 0 { return Failed(Clock); }
      ValidScans(env, rows);
      var scanned := Scan();
      var selected, nextReady := Select(now);
      if selected.None? {
        return if nextReady.None? then Empty else Waiting(nextReady.value);
      }
      out := ClaimRow(selected.value, scanned.value, now, diskOk);
    }

    /** Leases the selected row and rewrites it before handing it out. */
    method ClaimRow(key: Text, stored: nat, now: int, diskOk: bool) returns (out: Outcome)
      requires Valid() && 0 <= now && LeastReady(rows, key, now) && stored == Total(Sizes(rows))
      modifies this`rows
      ensures Valid() && Step(env, old(rows), Claim(now), out, rows)
      ensures diskOk ==> out != Failed(Io)
    {
      hide RecordValid, StateValid, RowBytes, Fits, BeginClaim, Sizes, Step, ClaimedRow, LeastReady;
      BeginClaimMeans(env, rows, key, now);
      var leased := BeginClaim(env, rows[key], now);
      if leased.Err? { return Failed(leased.error); }
      ChangedRowFits(env, rows, key, leased.value);
      var saved := Save(stored, key, leased.value, RowBytes(rows[key]), diskOk);
      if saved.Err? {
        IoFailure(env, rows, Claim(now));
        return Failed(saved.error);
      }
      out := Issued(leased.value.delivery.value, MakeLease(key, leased.value));
      StepKeepsValid(env, old(rows), Claim(now), out, rows);
    }

    /** The stored bytes and, unless the token is live, the refusal to answer with. */
    method LeasedRow(lease: DeliveryLease, now: int) returns (stored: nat, refusal: Option<Outcome>)
      requires Valid()
      ensures refusal.None? <==> Holds(rows, lease, now)
      ensures refusal.Some? ==> Refused(rows, lease, now, refusal.value)
      ensures now >= 0 ==> stored == Total(Sizes(rows))
    {
      hide RecordValid, ExactReservation, RowBytes, ValidOwner, ScanSound;
      if now < 0 { return 0, Some(Failed(Clock)); }
      ValidScans(env, rows);
      var scanned := Scan();
      stored := scanned.value;
      if lease.key !in rows { return stored, Some(Failed(Corrupt)); }
      refusal := if rows[lease.key].LeaseIsLive(lease, now) then None else Some(Lost);
    }

    method RenewLease(lease: DeliveryLease, now: int, diskOk: bool) returns (out: Outcome)
      requires Valid()
      modifies this`rows
      ensures Valid() && Step(env, old(rows), Renew(lease, now), out, rows)
      ensures diskOk ==> out != Failed(Io)
    {
      hide RecordValid, ExactReservation, RowBytes, ValidOwner, ScanSound, Fits, Sizes;
      hide Record.Lease;
      var stored, refusal := LeasedRow(lease, now);
      if refusal.Some? { return refusal.value; }
      var row := rows[lease.key];
      RenewMeans(env, row, lease, now);
      var leased := row.Lease(lease.owner, now, env.limits.leaseMillis);
      if leased.Err? { return Failed(leased.error); }
      RenewedRowIsValid(env, row, lease.key, now);
      ChangedRowFits(env, rows, lease.key, leased.value);
      var saved := Save(stored, lease.key, leased.value, RowBytes(row), diskOk);
      if saved.Err? { return Failed(saved.error); }
      out := Renewed(MakeLease(lease.key, leased.value));
      StepKeepsValid(env, old(rows), Renew(lease, now), out, rows);
    }

    method RetryLater(lease: DeliveryLease, now: int, availableAt: int, diskOk: bool)
      returns (out: Outcome)
      requires Valid() && Typed(Retry(lease, now, availableAt))
      modifies this`rows
      ensures Valid() && Step(env, old(rows), Retry(lease, now, availableAt), out, rows)
      ensures diskOk ==> out != Failed(Io)
    {
      hide RecordValid, ExactReservation, RowBytes, ValidOwner, ScanSound, Fits;
      if availableAt < now { return Failed(Clock); }
      var stored, refusal := LeasedRow(lease, now);
      if refusal.Some? { return refusal.value; }
      var row := rows[lease.key];
      var released := row.Retry(availableAt);
      if released.Err? { return Failed(released.error); }
      RetriedRowIsValid(env, row, lease.key, availableAt);
      ChangedRowFits(env, rows, lease.key, released.value);
      var saved := Save(stored, lease.key, released.value, RowBytes(row), diskOk);
      if saved.Err? { return Failed(saved.error); }
      out := Scheduled;
      StepKeepsValid(env, old(rows), Retry(lease, now, availableAt), out, rows);
    }

    method CompleteRow(lease: DeliveryLease, now: int, diskOk: bool) returns (out: Outcome)
      requires Valid()
      modifies this`rows
      ensures Valid() && Step(env, old(rows), Complete(lease, now), out, rows)
      ensures diskOk ==> out != Failed(Io)
    {
      hide RecordValid, ExactReservation, RowBytes, ValidOwner, ScanSound, ValidKey, StateValid, Sizes;
      hide Record.LeaseIsLive, Step;
      var _, refusal := LeasedRow(lease, now);
      CompletionSteps(rows, env, lease, now);
      if refusal.Some? { return refusal.value; }
      StoredKeyIsValid(env, rows, lease.key);
      var removed := Remove(lease.key, diskOk);
      out := if removed.Ok? then Completed else Failed(removed.error);
      StepKeepsValid(env, old(rows), Complete(lease, now), out, rows);
    }
  }

  /** The minimum ready time of the listed rows, if any is listed. */
  ghost predicate Soonest(rows: Rows, keys: seq<Text>, soonest: Option<int>)
  {
    && (soonest.None? <==> keys == [])
    && (soonest.Some? ==> exists k :: k in keys && k in rows && rows[k].ReadyAt() == soonest.value)
    && (soonest.Some? ==> forall k :: k in keys && k in rows ==> soonest.value <= rows[k].ReadyAt())
  }

  lemma NoneListed(rows: Rows)
    ensures Soonest(rows, [], None)
  {
  }

  lemma ReadyMeans(rows: Rows, key: Text, now: int)
    ensures Ready(rows, key, now) <==> key in rows && rows[key].ReadyAt() <= now
  {
  }

  lemma NoneIsReady(rows: Rows, keys: seq<Text>, soonest: Option<int>, now: int)
    requires Soonest(rows, keys, soonest) && forall k :: k in keys <==> k in rows
    requires forall j :: 0 <= j < |keys| ==> !Ready(rows, keys[j], now)
    ensures forall k :: k in rows ==> now < rows[k].ReadyAt()
    ensures soonest.None? ==> rows == map[]
    ensures soonest.Some? ==>
      && (exists k :: k in rows && rows[k].ReadyAt() == soonest.value)
      && forall k :: k in rows ==> soonest.value <= rows[k].ReadyAt()
  {
    hide Record.ReadyAt;
    forall k | k in rows ensures now < rows[k].ReadyAt() {
      var j :| 0 <= j < |keys| && keys[j] == k;
    }
    if soonest.None? { assert rows.Keys == {}; }
  }

  lemma SoonerOf(rows: Rows, keys: seq<Text>, soonest: Option<int>, key: Text)
    requires key in rows && Soonest(rows, keys, soonest)
    ensures
      var readyAt := rows[key].ReadyAt();
      Soonest(rows, keys + [key], Some(if soonest.None? then readyAt else Min(soonest.value, readyAt)))
  {
    hide Record.ReadyAt;
    if soonest.Some? && soonest.value <= rows[key].ReadyAt() {
      var k :| k in keys && k in rows && rows[k].ReadyAt() == soonest.value;
      assert k in keys + [key];
    } else {
      assert key in keys + [key];
    }
  }

  lemma FirstIsLeast(rows: Rows, keys: seq<Text>, at: nat, now: int)
    requires StrictlyAscending(keys) && at < |keys| && Ready(rows, keys[at], now)
    requires forall k :: k in keys <==> k in rows
    requires forall j :: 0 <= j < at ==> !Ready(rows, keys[j], now)
    ensures LeastReady(rows, keys[at], now)
  {
    hide LexLeq, Record.ReadyAt;
    forall other | Ready(rows, other, now) ensures LexLeq(keys[at], other) {
      var j :| 0 <= j < |keys| && keys[j] == other;
      if j == at { LexReflexive(other); }
    }
  }

  predicate ValidKey(key: Text)
  {
    |key| == 64 && forall i :: 0 <= i < 64 ==> LowerHex(key[i])
  }

  /** A file name is that of a row exactly when it holds sixty-four digits or letters up to f, no capitals. */
  lemma KeysExactly(key: Text)
    ensures ValidKey(key) <==> |key| == 64 && forall b :: b in key ==> 48 <= b <= 57 || 97 <= b <= 102
  {
    if |key| == 64 && forall b :: b in key ==> 48 <= b <= 57 || 97 <= b <= 102 {
      assert forall i :: 0 <= i < 64 ==> key[i] in key;
    }
  }

  predicate RowSound(env: Env, rows: Rows, key: Text)
    requires key in rows && env.limits.RecordReservation().Some?
  {
    && RowBytes(rows[key]) <= env.limits.maxRecordBytes
    && RowBytes(rows[key]) <= env.limits.RecordReservation().value
    && RecordValid(env.sha, rows[key], key, env.limits)
  }

  /** What every read of the directory insists on before trusting it. */
  ghost predicate ScanSound(env: Env, rows: Rows)
  {
    && env.limits.RecordReservation().Some?
    && |rows| <= env.limits.maxRecords
    && (forall k :: k in rows ==> RowSound(env, rows, k))
    && Total(Sizes(rows)) <= env.limits.maxBytes
  }

  /** A directory is accepted exactly when each row is consistent and within its reservation and both ceilings hold. */
  lemma ScansExactly(env: Env, rows: Rows)
    requires Accepted(env.limits)
    ensures ScanSound(env, rows) <==>
      && |rows| <= env.limits.maxRecords && Total(Sizes(rows)) <= env.limits.maxBytes
      && forall k :: k in rows ==>
           Consistent(env.sha, rows[k], k, env.limits) && RowBytes(rows[k]) <= ExactReservation(env.limits)
  {
    hide RecordValid, Consistent, RowBytes, Sizes, Total, ExactReservation, StoredLimits.RecordReservation;
    ReservationIsExact(env.limits);
    forall k | k in rows
      ensures RecordValid(env.sha, rows[k], k, env.limits) <==> Consistent(env.sha, rows[k], k, env.limits)
    {
      ValidatesExactly(env.sha, rows[k], k, env.limits);
    }
  }

  ghost predicate Fits(env: Env, stored: nat, key: Text, record: Record, oldBytes: nat)
  {
    && ValidKey(key)
    && env.limits.RecordReservation().Some?
    && RowBytes(record) <= env.limits.RecordReservation().value
    && RowBytes(record) <= env.limits.maxRecordBytes
    && oldBytes <= stored
    && stored + RowBytes(record) <= Min(env.limits.maxBytes, U64_MAX)
  }

  lemma NothingRead(rows: Rows)
    ensures Total(Sizes(rows - rows.Keys)) == 0
  {
    assert Sizes(rows - rows.Keys) == map[];
  }

  lemma ReadOneMore(rows: Rows, pending: set<Text>, key: Text)
    requires key in pending && pending <= rows.Keys
    ensures Total(Sizes(rows - (pending - {key}))) == Total(Sizes(rows - pending)) + RowBytes(rows[key])
    ensures Total(Sizes(rows - (pending - {key}))) <= Total(Sizes(rows))
  {
    hide RowBytes, Total;
    var read, more := Sizes(rows - pending), Sizes(rows - (pending - {key}));
    assert more == read[key := RowBytes(rows[key])];
    TotalPut(read, key, RowBytes(rows[key]));
    TotalOfPart(more, Sizes(rows));
  }

  lemma NormalizeError(incoming: Delivery, limits: StoredLimits)
    ensures Normalize(incoming, limits).Err? ==> Normalize(incoming, limits).error == InvalidDelivery
  {
    hide EnvelopeValid, HeadersValid, SortedHeaders, Lowered;
  }

  lemma RowFacts(env: Env, row: Record, key: Text)
    requires RecordValid(env.sha, row, key, env.limits)
    ensures row.attempts == row.fence <= row.generation <= U64_MAX
    ensures row.delivery.Some? && ValidKey(key)
  {
    hide DeliveryValid, ContentDigest, ValidLabel, ValidOwner;
  }

  lemma StoredKeyIsValid(env: Env, rows: Rows, key: Text)
    requires StateValid(env, rows) && key in rows
    ensures ValidKey(key)
  {
    hide RecordValid, ValidKey;
    RowFacts(env, rows[key], key);
  }

  lemma CompletionSteps(rows: Rows, env: Env, lease: DeliveryLease, now: int)
    ensures !Holds(rows, lease, now) ==>
      forall out :: Refused(rows, lease, now, out) ==> Step(env, rows, Complete(lease, now), out, rows)
    ensures Holds(rows, lease, now) ==>
      && Step(env, rows, Complete(lease, now), Completed, rows - {lease.key})
      && Step(env, rows, Complete(lease, now), Failed(Io), rows)
  {
    hide Holds, Refused;
  }

  lemma ValidForOwner(env: Env, owner: Text, rows: Rows)
    requires StateValid(env.(owner := owner), rows) && ValidOwner(env.owner)
    ensures StateValid(env, rows) && ScanSound(env, rows)
  {
    hide RecordValid, RowBytes, ScanSound, Accepted, ExactReservation, ValidOwner;
    ValidScans(env, rows);
  }

  lemma ScaleMonotone(a: nat, b: nat, scale: nat)
    requires a <= b
    ensures a * scale <= b * scale
  {
  }

  /** The inbox never refuses a directory it wrote itself. */
  lemma ValidScans(env: Env, rows: Rows)
    requires StateValid(env, rows)
    ensures ScanSound(env, rows)
  {
    hide RecordValid, RowBytes, ValidOwner;
    ReservationIsExact(env.limits);
    BytesWithinReservations(env, rows);
    ScaleMonotone(|rows|, |rows| + 1, ExactReservation(env.limits));
  }

  lemma NewRowFits(env: Env, rows: Rows, key: Text, record: Record)
    requires StateValid(env, rows) && !AtCapacity(env, rows)
    requires RecordValid(env.sha, record, key, env.limits)
    ensures Fits(env, Total(Sizes(rows)), key, record, 0)
  {
    hide RecordValid, RowBytes, ValidOwner, ValidKey;
    RowFacts(env, record, key);
    ReservationIsExact(env.limits);
    BytesWithinReservations(env, rows);
    RowFitsReservation(env.sha, record, key, env.limits);
    var n, reserved := |rows|, ExactReservation(env.limits);
    assert (n + 2) * reserved == n * reserved + 2 * reserved;
  }

  /** Replacing a stored row always has room for the second copy. */
  lemma ChangedRowFits(env: Env, rows: Rows, key: Text, record: Record)
    requires StateValid(env, rows) && key in rows
    requires RecordValid(env.sha, record, key, env.limits)
    ensures Fits(env, Total(Sizes(rows)), key, record, RowBytes(rows[key]))
  {
    hide RecordValid, RowBytes, ValidOwner, ValidKey;
    RowFacts(env, record, key);
    ReservationIsExact(env.limits);
    BytesWithinReservations(env, rows);
    RowFitsReservation(env.sha, record, key, env.limits);
    TotalSplit(Sizes(rows), key);
    var n, reserved := |rows|, ExactReservation(env.limits);
    assert (n + 1) * reserved == n * reserved + reserved;
  }
}

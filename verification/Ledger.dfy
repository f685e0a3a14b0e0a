/** The file ledger's calls (controller/src/file_ledger.rs, transitions.rs, store.rs). */
module LedgerService {
  import opened Machine
  import opened Bytes
  import opened LedgerModel
  import opened LedgerDisk

  predicate WindowMatches(cfg: Config, delivery: AcceptedDelivery)
  {
    delivery.keep.KeepThrough? ==> delivery.keep.window == cfg.window
  }

  /** A bounded delivery accepted under another replay window than the root's. */
  ghost predicate ForeignWindow(cfg: Config, delivery: AcceptedDelivery)
  {
    delivery.keep.KeepThrough? && delivery.keep.window != cfg.window
  }

  /** What a call is given from outside: the writes the disk will take, its clock readings, a nonce. */
  datatype Inputs = Inputs(writes: nat, first: int, second: int, nonce: Option<Text>)

  // ----- What a call writes -----

  /** The record of a first claim. */
  function Admission(
    cfg: Config, owner: Text, delivery: AcceptedDelivery, check: Text, nonce: Text, now: int): Record
  {
    Record(
      1, now, delivery.delivery, delivery.KeepUntil(), check, EvaluationId(delivery.Key(), nonce),
      Running(owner, 1, now + cfg.leaseMillis))
  }

  /** A stored record moved on to its next state. */
  function Moved(record: Record, now: int, state: State): Record
  {
    record.(generation := record.generation + 1, lastSeen := now, state := state)
  }

  predicate Unwritable(cfg: Config, record: Record, now: int, state: State)
  {
    record.generation == U64_MAX || !cfg.Fits(Moved(record, now, state))
  }

  function Reclaimed(cfg: Config, owner: Text, record: Record, now: int): State
  {
    Running(owner, record.state.fence + 1, now + cfg.leaseMillis)
  }

  /** The row is claimed anew at `now`: its lease ended, or it was staged without a gate commit. */
  predicate Reclaimable(record: Record, now: int)
  {
    (record.state.Running? && record.state.expiresAt <= now) || (record.state.Staged? && !record.Frozen())
  }

  function RenewedState(cfg: Config, owner: Text, lease: DeliveryLease, now: int): State
  {
    Running(owner, lease.fence, Max(lease.expiresAt, now + cfg.leaseMillis))
  }

  function FinalState(staged: StagedPublication): State
  {
    Done(staged.fence, OfStaged(staged.evaluation, staged.fence, StoredOf(staged.publication)))
  }

  // ----- How many writes a call needs -----

  /** A reading ahead of the stored clock is saved. */
  function Tick(clock: int, reading: int): nat { if clock < reading then 1 else 0 }

  function ReportCost(d: Disk, k: Key): nat { if k in d.reports then 1 else 0 }

  function SettleCost(capacity: Capacity): nat { if capacity.pending.Some? then 1 else 0 }

  function ClaimCost(d: Disk, k: Key, first: int, second: int): nat
  {
    if k !in d.records then
      Tick(d.clock, first) + Tick(Max(d.clock, first), second) + SettleCost(d.capacity) + 3
    else
      match d.records[k].state
      case Running(_, _, expiresAt) =>
        Tick(d.clock, second) + if Max(d.clock, second) < expiresAt then 0 else 1
      case Staged(_, _) => if d.records[k].Frozen() then 0 else Tick(d.clock, second) + 1 + ReportCost(d, k)
      case Done(_, _) => ReportCost(d, k)
  }

  /** The writes that see any call through. */
  function Needed(d: Disk, op: Op, first: int, second: int): nat
  {
    match op
    case Claim(_, delivery, _) => ClaimCost(d, delivery.Key(), first, second)
    case Renew(_, _, _) => Tick(d.clock, second) + 1
    case Stage(_, delivery, _, publication) =>
      Tick(d.clock, second) + ReportCost(d, delivery.Key()) + (if publication.report.Some? then 1 else 0) + 1
    case Complete(delivery, _) =>
      if delivery.Key() in d.records then 1 + ReportCost(d, delivery.Key()) else Tick(d.clock, second)
    case Cleanup => CleanupCost(d, Max(d.clock, second)) + Tick(d.clock, second)
  }

  function CleanupCost(d: Disk, now: int): nat
  {
    var expired := RemovableKeys(d.records, now);
    (if d.capacity.pending.Some? || d.capacity.cleanupPending then 1 else 0)
    + |DeadReports(d.records, d.reports)| + if expired == {} then 0 else |expired| + 2
  }

  // ----- Rows, leases and publications on their fields -----

  /** The row is of this delivery and check. */
  ghost predicate SameWorkItem(record: Record, delivery: AcceptedDelivery, check: Text)
  {
    && record.binding == delivery.delivery && record.check == check
    && match delivery.keep
       case Permanent => record.keep.None?
       case KeepThrough(end, _) => record.keep == Some(end)
  }

  /** This owner holds exactly this lease on the row of this delivery, unexpired at `now`. */
  ghost predicate Holding(row: Option<Record>, owner: Text, delivery: AcceptedDelivery, lease: DeliveryLease, now: int)
  {
    && row.Some? && SameWorkItem(row.value, delivery, lease.check) && row.value.evaluation == lease.evaluation
    && row.value.state == Running(owner, lease.fence, lease.expiresAt) && now < lease.expiresAt
  }

  lemma HoldingMeans(row: Option<Record>, owner: Text, delivery: AcceptedDelivery, lease: DeliveryLease, now: int)
    ensures Holding(row, owner, delivery, lease, now) <==> HoldsLease(row, owner, delivery, lease, now)
  {
  }

  /** The publication speaks of exactly the row's evaluation, run, change, candidate and check. */
  ghost predicate SpeaksOfRow(record: Record, verdict: Verdict)
  {
    && verdict.evaluation == record.evaluation && verdict.check == record.check
    && verdict.change == record.binding.change && verdict.providerRun == record.binding.providerRun
    && (verdict.objectFormat, verdict.candidate)
       == (record.binding.providerRun.objectFormat, record.binding.providerRun.candidate)
  }

  /** The verdict names an artifact that the report is missing for or differs from. */
  ghost predicate Unbacked(publication: Publication)
  {
    && publication.verdict.artifact.Some?
    && (publication.report.None? || publication.verdict.artifact.value != OfBytes(publication.report.value))
  }

  ghost predicate Oversized(publication: Publication)
  {
    publication.report.Some? && |publication.report.value| > MACHINE_JSON_BYTES
  }

  lemma DefectMeans(publication: Publication)
    ensures StoreDefect(publication) == Some(Corrupt) <==> Unbacked(publication)
    ensures StoreDefect(publication) == Some(ReportTooLarge) <==> !Unbacked(publication) && Oversized(publication)
    ensures StoreDefect(publication).None? <==> !Unbacked(publication) && !Oversized(publication)
  {
  }

  lemma SpeaksMeans(record: Record, verdict: Verdict)
    ensures SpeaksOfRow(record, verdict) <==> Bound(record, verdict)
  {
  }

  lemma WorkItemMeans(record: Record, delivery: AcceptedDelivery, check: Text)
    ensures SameWorkItem(record, delivery, check) <==> record.Matches(delivery, check)
  {
  }

  // ----- Why a call fails -----

  /** What about the call or the row makes it come back as corrupt at time `now`. */
  ghost predicate CorruptCause(cfg: Config, d: Disk, op: Op, nonce: Option<Text>, now: int)
  {
    match op
    case Claim(owner, delivery, check) => ClaimCorrupt(cfg, d, owner, delivery, check, nonce, now)
    case Renew(owner, delivery, lease) =>
      var row := Row(d, delivery.Key());
      Holding(row, owner, delivery, lease, now)
      && Unwritable(cfg, row.value, now, RenewedState(cfg, owner, lease, now))
    case Stage(owner, delivery, lease, publication) =>
      StageCorrupt(cfg, Row(d, delivery.Key()), owner, delivery, lease, publication, now)
    case Complete(delivery, staged) => CompleteCorrupt(cfg, Row(d, delivery.Key()), delivery, staged)
    case Cleanup => false
  }

  ghost predicate ClaimCorrupt(
    cfg: Config, d: Disk, owner: Text, delivery: AcceptedDelivery, check: Text, nonce: Option<Text>, now: int)
  {
    match Row(d, delivery.Key())
    case None =>
      || d.capacity.cleanupPending
      || delivery.delivery.identity.provider != delivery.delivery.change.provider
      || (delivery.KeepUntil().Some? && delivery.KeepUntil().value < 0)
      || (nonce.Some? && !cfg.Fits(Admission(cfg, owner, delivery, check, nonce.value, now)))
    case Some(record) =>
      && SameWorkItem(record, delivery, check) && Reclaimable(record, now)
      && Unwritable(cfg, record, now, Reclaimed(cfg, owner, record, now))
  }

  ghost predicate StageCorrupt(
    cfg: Config, row: Option<Record>, owner: Text, delivery: AcceptedDelivery, lease: DeliveryLease,
    publication: Publication, now: int)
  {
    && row.Some? && SameWorkItem(row.value, delivery, lease.check) && SpeaksOfRow(row.value, publication.verdict)
    && (|| (row.value.state.Staged? && row.value.state.publication.gateCommit.None?)
        || (Holding(row, owner, delivery, lease, now)
            && (|| Unbacked(publication) || !publication.verdict.wellFormed
                || Unwritable(cfg, row.value, now, Staged(lease.fence, StoredOf(publication))))))
  }

  ghost predicate CompleteCorrupt(
    cfg: Config, row: Option<Record>, delivery: AcceptedDelivery, staged: StagedPublication)
  {
    && row.Some? && SameWorkItem(row.value, delivery, staged.publication.verdict.check)
    && row.value.evaluation == staged.evaluation
    && (|| Unbacked(staged.publication)
        || (row.value.state == Staged(staged.fence, StoredOf(staged.publication))
            && Unwritable(cfg, row.value, row.value.lastSeen, FinalState(staged))))
  }

  /** A claim of a delivery without a row. */
  predicate Absent(d: Disk, op: Op)
  {
    op.Claim? && Row(d, op.delivery.Key()).None?
  }

  /** The call grants or extends a lease at time `now`. */
  ghost predicate Leases(d: Disk, op: Op, now: int)
  {
    match op
    case Claim(_, delivery, check) =>
      var row := Row(d, delivery.Key());
      row.Some? ==> SameWorkItem(row.value, delivery, check) && Reclaimable(row.value, now)
    case Renew(owner, delivery, lease) => Holding(Row(d, delivery.Key()), owner, delivery, lease, now)
    case _ => false
  }

  /** A call fails only for a reason outside it: the disk, the clock, its arguments or the row. */
  ghost predicate Excused(cfg: Config, inputs: Inputs, d: Disk, op: Op, error: LedgerError, d': Disk)
  {
    match error
    case Io => inputs.writes < Needed(d, op, inputs.first, inputs.second)
    case Clock =>
      || inputs.second < 0 || (inputs.first < 0 && Absent(d, op))
      || (d'.clock == FinalClock(inputs, d, op) && Leases(d, op, d'.clock) && d'.clock + cfg.leaseMillis > I64_MAX)
    case Configuration => !op.Cleanup? && ForeignWindow(cfg, op.delivery) && d' == d
    case Random => Absent(d, op) && inputs.nonce.None?
    case Full => op.Claim?
    case Expired => op.Claim?
    case ReportTooLarge => op.Stage? && Oversized(op.publication)
    case Corrupt => CorruptCause(cfg, d, op, inputs.nonce, d'.clock)
  }

  /** The time of a call's last clock reading. */
  function FinalClock(inputs: Inputs, d: Disk, op: Op): int
  {
    if Absent(d, op) then Max(Max(d.clock, inputs.first), inputs.second)
    else Max(d.clock, inputs.second)
  }

  /** The clock stays or takes a reading, and an answer that depends on the time used the latest one. */
  ghost predicate Timed(cfg: Config, inputs: Inputs, d: Disk, op: Op, out: Outcome, d': Disk)
  {
    var now := FinalClock(inputs, d, op);
    && (d'.clock in {d.clock, now} || (op.Claim? && d'.clock == Max(d.clock, inputs.first) <= now))
    && match out
       case Execute(lease) => op.Claim? && d'.clock == now && ClaimTimed(cfg, inputs, d, op.delivery, lease, now)
       case Busy(_, _) => 0 <= inputs.second && d'.clock == now
       case Renewed(lease) =>
         && op.Renew? && d'.clock == now && lease.expiresAt == Max(op.lease.expiresAt, now + cfg.leaseMillis)
         && 0 <= inputs.second && now + cfg.leaseMillis <= I64_MAX
       case Froze(_) => op.Stage? && (AtRow(d, op).Running? ==> 0 <= inputs.second && d'.clock == now)
       case Failed(Expired) => op.Claim? && d'.clock == Max(d.clock, inputs.first)
       case Failed(Full) => op.Claim? && !KeepEnded(op.delivery.KeepUntil(), Max(d.clock, inputs.first))
       case Failed(Corrupt) => op.Claim? || op.Renew? || (op.Stage? && AtRow(d, op).Running?) ==> d'.clock == now
       case _ => true
  }

  /** The state of the row a call is about; a missing row is not running. */
  function AtRow(d: Disk, op: Op): State
    requires !op.Cleanup?
  {
    match Row(d, op.delivery.Key())
    case None => Done(0, OfReport([]))
    case Some(record) => record.state
  }

  ghost predicate ClaimTimed(
    cfg: Config, inputs: Inputs, d: Disk, delivery: AcceptedDelivery, lease: DeliveryLease, now: int)
  {
    0 <= inputs.second &&
    match Row(d, delivery.Key())
    case None =>
      && 0 <= inputs.first && !KeepEnded(delivery.KeepUntil(), Max(d.clock, inputs.first))
      && lease.expiresAt == now + cfg.leaseMillis <= I64_MAX
      && inputs.nonce.Some? && lease.evaluation == EvaluationId(delivery.Key(), inputs.nonce.value)
    case Some(record) =>
      || (record.state.Running? && now < record.state.expiresAt)
      || lease.expiresAt == now + cfg.leaseMillis <= I64_MAX
  }

  /** What a call answers: a step of the root, in time, a failure only with an outside cause. */
  ghost predicate Answered(cfg: Config, inputs: Inputs, d: Disk, op: Op, out: Outcome, d': Disk)
  {
    && Step(d, op, out, d') && Timed(cfg, inputs, d, op, out, d')
    && (out.Failed? ==> Excused(cfg, inputs, d, op, out.error, d'))
    && (!op.Cleanup? && ForeignWindow(cfg, op.delivery) ==> out == Failed(Configuration))
  }

  /**
   * A call is refused for the configuration if and only if its delivery's replay end
   * was computed under another window than the root's, and then nothing changes.
   */
  lemma ConfigurationIffOtherWindow(cfg: Config, inputs: Inputs, d: Disk, op: Op, out: Outcome, d': Disk)
    requires !op.Cleanup? && Answered(cfg, inputs, d, op, out, d')
    ensures out == Failed(Configuration) <==>
      match op.delivery.keep
      case Permanent => false
      case KeepThrough(_, window) => window != cfg.window
    ensures out == Failed(Configuration) ==> d' == d
  {
    hide Step, Timed;
  }

  // ----- What a call answers when nothing outside it fails -----

  /** A readable clock, enough writes, a nonce, and arguments and a row the code can write. */
  ghost predicate Healthy(cfg: Config, inputs: Inputs, d: Disk, op: Op)
  {
    && !op.Cleanup? && 0 <= inputs.second && (Absent(d, op) ==> 0 <= inputs.first && inputs.nonce.Some?)
    && Needed(d, op, inputs.first, inputs.second) <= inputs.writes
    && !ForeignWindow(cfg, op.delivery)
    && (Leases(d, op, FinalClock(inputs, d, op)) ==> FinalClock(inputs, d, op) + cfg.leaseMillis <= I64_MAX)
    && !CorruptCause(cfg, d, op, inputs.nonce, FinalClock(inputs, d, op))
    && (op.Stage? ==> !Oversized(op.publication))
  }

  lemma HealthyFailure(cfg: Config, inputs: Inputs, d: Disk, op: Op, error: LedgerError, d': Disk)
    requires Healthy(cfg, inputs, d, op) && Timed(cfg, inputs, d, op, Failed(error), d')
    requires Excused(cfg, inputs, d, op, error, d')
    ensures op.Claim? && error in {Full, Expired}
  {
    hide Needed, ClaimCorrupt, StoreDefect, Unwritable, Bound, CompleteCorrupt;
  }

  /** What a claim is answered, by the row it finds and the time it reads. */
  ghost function Decision(
    cfg: Config, inputs: Inputs, d: Disk, owner: Text, delivery: AcceptedDelivery, check: Text): Outcome
    requires delivery.delivery.identity in d.records || inputs.nonce.Some?
  {
    var k := delivery.delivery.identity;
    if k !in d.records then
      var now := Max(Max(d.clock, inputs.first), inputs.second);
      if delivery.keep.KeepThrough? && delivery.keep.unixMillis < Max(d.clock, inputs.first) then Failed(Expired)
      else if |d.records| == cfg.maxRecords then Failed(Full)
      else Execute(DeliveryLease(EvaluationId(k, inputs.nonce.value), check, 1, now + cfg.leaseMillis))
    else
      var record, now := d.records[k], Max(d.clock, inputs.second);
      if !SameWorkItem(record, delivery, check) then BindingConflict
      else
        match record.state
        case Running(holder, fence, expiresAt) =>
          if expiresAt <= now then
            Execute(DeliveryLease(record.evaluation, check, fence + 1, now + cfg.leaseMillis))
          else if holder == owner then Execute(DeliveryLease(record.evaluation, check, fence, expiresAt))
          else Busy(record.evaluation, expiresAt)
        case Staged(fence, stored) =>
          (match stored.gateCommit
           case None => Execute(DeliveryLease(record.evaluation, check, fence + 1, now + cfg.leaseMillis))
           case Some(gate) =>
             var report := if stored.report.None? || k !in d.reports then None else Some(d.reports[k]);
             Publish(StagedPublication(record.evaluation, fence, Publication(stored.verdict, gate, report))))
        case Done(_, _) => Duplicate(record.evaluation)
  }

  /** A claim is answered exactly what the row and the time say, unless something outside it fails. */
  lemma ClaimIsDecided(cfg: Config, inputs: Inputs, d: Disk, op: Op, out: Outcome, d': Disk)
    requires op.Claim? && DiskValid(cfg, d) && Answered(cfg, inputs, d, op, out, d') && Healthy(cfg, inputs, d, op)
    ensures op.delivery.delivery.identity in d.records || inputs.nonce.Some?
    ensures out == Decision(cfg, inputs, d, op.owner, op.delivery, op.check)
  {
    hide Healthy, DiskValid, Excused, DiskNext, StoredOf, Timed, ClaimAnswer;
    HealthyNonce(cfg, inputs, d, op);
    MaximumIsConfigured(cfg, d);
    if out.Failed? {
      HealthyFailure(cfg, inputs, d, op, out.error, d');
      RefusalIsDecided(cfg, inputs, d, op, out.error, d');
    } else {
      NextAtKey(d, d', op.delivery.Key());
      match out
      case Publish(staged) => PublishIsDecided(cfg, inputs, d, op, staged, d');
      case Execute(lease) => ExecuteIsDecided(cfg, inputs, d, op, lease, d');
      case _ => OtherwiseDecided(cfg, inputs, d, op, out, d');
    }
  }

  lemma HealthyNonce(cfg: Config, inputs: Inputs, d: Disk, op: Op)
    requires Healthy(cfg, inputs, d, op) && op.Claim?
    ensures op.delivery.delivery.identity in d.records || inputs.nonce.Some?
  {
    hide Needed, CorruptCause, Leases, FinalClock;
  }

  lemma NextAtKey(d: Disk, d': Disk, k: Key)
    requires DiskNext(d, d')
    ensures RowNext(k, Row(d, k), Row(d', k), d.clock, d'.clock)
  {
  }

  lemma RefusalIsDecided(cfg: Config, inputs: Inputs, d: Disk, op: Op, error: LedgerError, d': Disk)
    requires op.Claim? && (op.delivery.delivery.identity in d.records || inputs.nonce.Some?)
    requires ClaimAnswer(op.owner, op.delivery, op.check, d, Failed(error), d') && error in {Full, Expired}
    requires Timed(cfg, inputs, d, op, Failed(error), d') && d.capacity.maxRecords == cfg.maxRecords
    ensures Failed(error) == Decision(cfg, inputs, d, op.owner, op.delivery, op.check)
  {
  }

  lemma ExecuteIsDecided(cfg: Config, inputs: Inputs, d: Disk, op: Op, lease: DeliveryLease, d': Disk)
    requires op.Claim? && (op.delivery.delivery.identity in d.records || inputs.nonce.Some?)
    requires ClaimAnswer(op.owner, op.delivery, op.check, d, Execute(lease), d')
    requires RowNext(op.delivery.Key(), Row(d, op.delivery.Key()), Row(d', op.delivery.Key()), d.clock, d'.clock)
    requires Timed(cfg, inputs, d, op, Execute(lease), d') && d.capacity.maxRecords == cfg.maxRecords
    ensures Execute(lease) == Decision(cfg, inputs, d, op.owner, op.delivery, op.check)
  {
    hide StoredOf, StateMove;
  }

  lemma PublishIsDecided(cfg: Config, inputs: Inputs, d: Disk, op: Op, staged: StagedPublication, d': Disk)
    requires op.Claim? && DiskValid(cfg, d)
    requires ClaimAnswer(op.owner, op.delivery, op.check, d, Publish(staged), d')
    ensures op.delivery.delivery.identity in d.records
    ensures Publish(staged) == Decision(cfg, inputs, d, op.owner, op.delivery, op.check)
  {
    hide DiskValid;
    var k := op.delivery.Key();
    StagedReadsBack(cfg, d, k);
    var stored := d.records[k].state.publication;
    StoredRoundTrip(staged.publication, stored, ReportOf(stored, ReportFile(d, k)));
  }

  lemma OtherwiseDecided(cfg: Config, inputs: Inputs, d: Disk, op: Op, out: Outcome, d': Disk)
    requires op.Claim? && (op.delivery.delivery.identity in d.records || inputs.nonce.Some?)
    requires !out.Failed? && !out.Execute? && !out.Publish?
    requires ClaimAnswer(op.owner, op.delivery, op.check, d, out, d') && Timed(cfg, inputs, d, op, out, d')
    ensures out == Decision(cfg, inputs, d, op.owner, op.delivery, op.check)
  {
    hide StoredOf;
  }

  /** A renewal succeeds exactly for the owner of the unexpired lease, until one lease from now at least. */
  lemma RenewalIsDecided(cfg: Config, inputs: Inputs, d: Disk, op: Op, out: Outcome, d': Disk)
    requires op.Renew? && Answered(cfg, inputs, d, op, out, d') && Healthy(cfg, inputs, d, op)
    ensures
      var now := Max(d.clock, inputs.second);
      out == if Holding(Row(d, op.delivery.delivery.identity), op.owner, op.delivery, op.lease, now)
             then Renewed(op.lease.(expiresAt := Max(op.lease.expiresAt, now + cfg.leaseMillis))) else Lost
  {
    hide Healthy, DiskNext, Excused, Holding;
    HoldingMeans(Row(d, op.delivery.Key()), op.owner, op.delivery, op.lease, Max(d.clock, inputs.second));
    if out.Failed? { HealthyFailure(cfg, inputs, d, op, out.error, d'); }
  }

  /** The row already holds exactly this publication, frozen under this lease. */
  ghost predicate AlreadyFrozen(row: Option<Record>, op: Op)
    requires op.Stage?
  {
    && row.Some? && SameWorkItem(row.value, op.delivery, op.lease.check) && row.value.evaluation == op.lease.evaluation
    && row.value.state == Staged(op.lease.fence, StoredOf(op.publication))
  }

  /** Staging succeeds exactly for the owner of the unexpired lease with a bound publication, or as a repeat. */
  lemma StagingIsDecided(cfg: Config, inputs: Inputs, d: Disk, op: Op, out: Outcome, d': Disk)
    requires op.Stage? && Answered(cfg, inputs, d, op, out, d') && Healthy(cfg, inputs, d, op)
    ensures
      var row, now := Row(d, op.delivery.delivery.identity), Max(d.clock, inputs.second);
      out == if (Holding(row, op.owner, op.delivery, op.lease, now)
                 && SpeaksOfRow(row.value, op.publication.verdict)) || AlreadyFrozen(row, op)
             then Froze(StagedPublication(op.lease.evaluation, op.lease.fence, op.publication)) else Lost
  {
    hide Healthy, DiskNext, Excused, StoredOf, Holding;
    HoldingMeans(Row(d, op.delivery.Key()), op.owner, op.delivery, op.lease, Max(d.clock, inputs.second));
    HoldingMeans(Row(d, op.delivery.Key()), op.owner, op.delivery, op.lease, d'.clock);
    if out.Failed? { HealthyFailure(cfg, inputs, d, op, out.error, d'); }
  }

  /** The row holds exactly this staged value, or its digest. */
  ghost predicate Completable(row: Option<Record>, delivery: AcceptedDelivery, staged: StagedPublication)
  {
    var publication := staged.publication;
    && !Oversized(publication) && !Unbacked(publication)
    && row.Some? && SameWorkItem(row.value, delivery, publication.verdict.check)
    && row.value.evaluation == staged.evaluation
    && (|| row.value.state == Staged(staged.fence, StoredOf(publication))
        || row.value.state
           == Done(staged.fence, OfStaged(staged.evaluation, staged.fence, StoredOf(publication))))
  }

  /** Completion succeeds exactly for the staged value, or as a repeat. */
  lemma CompletionIsDecided(cfg: Config, inputs: Inputs, d: Disk, op: Op, out: Outcome, d': Disk)
    requires op.Complete? && Answered(cfg, inputs, d, op, out, d') && Healthy(cfg, inputs, d, op)
    ensures
      out == if Completable(Row(d, op.delivery.delivery.identity), op.delivery, op.staged) then Completed else Lost
  {
    hide Healthy, DiskNext, Excused, StoredOf;
    if out.Failed? { HealthyFailure(cfg, inputs, d, op, out.error, d'); }
  }

  /**
   * A finished cleanup leaves exactly the rows that are not completed or whose replay
   * end is not past, unchanged, and exactly the reports a staged publication reads.
   */
  lemma CleanupIsDecided(d: Disk, out: Outcome, d': Disk)
    requires Step(d, Op.Cleanup, out, d') && out.Cleaned?
    ensures forall k :: k in d'.records ==> k in d.records && d'.records[k] == d.records[k]
    ensures forall k :: k in d.records ==>
      (k !in d'.records <==>
         match (d.records[k].state, d.records[k].keep)
         case (Done(_, _), Some(end)) => end < d'.clock
         case _ => false)
    ensures forall k :: k in d'.reports ==> k in d.reports && d'.reports[k] == d.reports[k]
    ensures forall k :: k in d.reports ==>
      (k in d'.reports <==>
         k in d.records && match d.records[k].state
                           case Staged(_, publication) => publication.report.Some?
                           case _ => false)
    ensures out.removed == |d.records| - |d'.records|
  {
    hide DiskNext, Exact;
  }

  /** One record root shared by every owner. */
  class LedgerRoot {
    const cfg: Config
    var disk: Disk
    /** How many durable writes the environment lets through before one fails. */
    var writes: nat

    ghost predicate Valid()
      reads this
    {
      DiskValid(cfg, disk)
    }

    constructor (cfg: Config, clock: nat, writes: nat)
      requires cfg.Valid()
      ensures Valid() && this.cfg == cfg
      ensures disk == Disk(map[], map[], Capacity(cfg.maxRecords, 0, None, false), clock)
    {
      this.cfg := cfg;
      this.writes := writes;
      disk := Disk(map[], map[], Capacity(cfg.maxRecords, 0, None, false), clock);
    }

    /** A root found on disk. */
    constructor Found(cfg: Config, disk: Disk, writes: nat)
      ensures this.cfg == cfg && this.disk == disk && this.writes == writes
    {
      this.cfg := cfg;
      this.disk := disk;
      this.writes := writes;
    }

    /** One atomic write: it happens whole or not at all. */
    method Commit(next: Disk) returns (ok: bool)
      modifies this
      ensures ok <==> old(writes) > 0
      ensures disk == if ok then next else old(disk)
      ensures writes == if ok then old(writes) - 1 else 0
    {
      ok := writes > 0;
      if ok {
        writes := writes - 1;
        disk := next;
      }
    }

    /** Advances the stored clock; a rolled-back reading never lowers it. */
    method ObserveClock(reading: int) returns (r: Result<int, LedgerError>)
      requires Valid()
      modifies this
      ensures Valid() && disk == old(disk).(clock := disk.clock)
      ensures r.Ok? ==>
        reading >= 0 && r.value == disk.clock == Max(old(disk.clock), reading)
      ensures r.Ok? ==> writes == old(writes) - Tick(old(disk.clock), reading)
      ensures r.Err? ==> disk == old(disk)
      ensures r.Err? ==>
        if r.error == Clock then reading < 0
        else r.error == Io && writes == 0 && old(writes) < Tick(old(disk.clock), reading)
    {
      hide DiskValid;
      if reading < 0 { return Err(Clock); }
      var effective := Max(disk.clock, reading);
      if effective != disk.clock {
        ClockWritten(cfg, disk, effective);
        var ok := Commit(disk.(clock := effective));
        if !ok { return Err(Io); }
      }
      r := Ok(effective);
    }

    /** Rewrites one existing record file. */
    method Save(k: Key, record: Record) returns (r: Result<(), LedgerError>)
      requires Valid() && k in disk.records && record.lastSeen <= disk.clock
      requires ReportSound(record, ReportFile(disk, k))
      modifies this
      ensures Valid()
      ensures disk == if r.Ok? then old(disk).(records := old(disk).records[k := record]) else old(disk)
      ensures r.Ok? ==> RecordSound(record, k) && writes == old(writes) - 1
      ensures r.Err? ==>
        if r.error == Corrupt then !RecordSound(record, k) || !cfg.Fits(record)
        else r.error == Io && writes == 0 == old(writes)
    {
      hide DiskValid, RecordSound;
      if !RecordSound(record, k) || !cfg.Fits(record) { return Err(Corrupt); }
      RecordReplaced(cfg, disk, k, record);
      var ok := Commit(disk.(records := disk.records[k := record]));
      r := if ok then Ok(()) else Err(Io);
    }

    method RemoveReport(k: Key) returns (r: Result<(), LedgerError>)
      requires Valid()
      requires k in disk.records ==>
        !disk.records[k].state.Staged? || disk.records[k].state.publication.report.None?
      modifies this
      ensures Valid() && disk == old(disk).(reports := disk.reports)
      ensures disk.reports == old(disk.reports) || disk.reports == old(disk.reports) - {k}
      ensures r.Ok? ==> k !in disk.reports && writes == old(writes) - ReportCost(old(disk), k)
      ensures r.Err? ==> r.error == Io && writes == 0 && old(writes) < ReportCost(old(disk), k)
    {
      hide DiskValid;
      if k in disk.reports {
        ReportWritten(cfg, disk, k, disk.reports - {k});
        var ok := Commit(disk.(reports := disk.reports - {k}));
        if !ok { return Err(Io); }
      }
      r := Ok(());
    }

    /** Writes the report a publication names beside its still running record. */
    method SaveReport(k: Key, report: Option<Text>) returns (r: Result<(), LedgerError>)
      requires Valid() && k !in disk.reports
      requires k in disk.records ==> !disk.records[k].state.Staged?
      modifies this
      ensures Valid() && disk == old(disk).(reports := disk.reports)
      ensures disk.reports == old(disk.reports)
              || (report.Some? && disk.reports == old(disk.reports)[k := report.value])
      ensures r.Ok? ==> ReportFile(disk, k) == report
      ensures r.Ok? ==> writes == old(writes) - if report.Some? then 1 else 0
      ensures r.Err? ==> r.error == Io && writes == 0 == old(writes) && report.Some?
    {
      hide DiskValid;
      if report.Some? {
        ReportWritten(cfg, disk, k, disk.reports[k := report.value]);
        var ok := Commit(disk.(reports := disk.reports[k := report.value]));
        if !ok { return Err(Io); }
      }
      r := Ok(());
    }

    /** Puts a publication's report in place of whatever the row's file held. */
    method ReplaceReport(k: Key, report: Option<Text>) returns (r: Result<(), LedgerError>)
      requires Valid() && (k in disk.records ==> !disk.records[k].state.Staged?)
      modifies this
      ensures Valid() && disk == old(disk).(reports := disk.reports)
      ensures forall x :: x != k ==> ReportFile(disk, x) == ReportFile(old(disk), x)
      ensures
        var cost := ReportCost(old(disk), k) + if report.Some? then 1 else 0;
        if r.Ok? then ReportFile(disk, k) == report && writes == old(writes) - cost
        else r.error == Io && writes == 0 && old(writes) < cost
    {
      hide DiskValid;
      var _ :- RemoveReport(k);
      r := SaveReport(k, report);
    }

    method SaveCapacity(capacity: Capacity) returns (r: Result<(), LedgerError>)
      requires Valid()
      requires Counts(capacity, disk.records.Keys) && capacity.maxRecords == cfg.maxRecords
      modifies this
      ensures Valid()
      ensures disk == if r.Ok? then old(disk).(capacity := capacity) else old(disk)
      ensures r.Err? ==> r.error == Io
      ensures r.Ok? <==> old(writes) > 0
      ensures writes == if r.Ok? then old(writes) - 1 else 0
    {
      hide DiskValid, Counts;
      CapacityWritten(cfg, disk, capacity);
      var ok := Commit(disk.(capacity := capacity));
      r := if ok then Ok(()) else Err(Io);
    }

    /** Settles an admission some crash left pending, by looking for its file. */
    method RecoverCapacity() returns (r: Result<(), LedgerError>)
      requires Valid()
      modifies this
      ensures Valid() && disk == old(disk).(capacity := disk.capacity)
      ensures r.Ok? && !old(disk.capacity.cleanupPending) ==> Exact(disk.capacity, disk.records.Keys)
      ensures old(disk.capacity.cleanupPending) ==> r.Ok? && disk == old(disk)
      ensures r.Ok? ==> writes == old(writes) - SettleCost(old(disk.capacity))
      ensures r.Err? ==> r.error == Io && writes == 0 && old(writes) < SettleCost(old(disk.capacity))
    {
      var capacity := disk.capacity;
      if capacity.pending.None? { return Ok(()); }
      SettleIsExact(capacity, disk.records.Keys);
      var settled := Settle(capacity, capacity.pending.value in disk.records);
      r := SaveCapacity(settled.value);
    }

    /**
     * Admits one new record: reserve, write, settle. Whichever write is cut off,
     * the root stays sound; only a cut-off cleanup makes it refuse.
     */
    method SaveNew(k: Key, record: Record) returns (r: Result<(), LedgerError>)
      requires Valid() && record.lastSeen <= disk.clock && record.state.Running?
      modifies this
      ensures Valid()
      ensures disk.reports == old(disk.reports) && disk.clock == old(disk.clock)
      ensures disk.records == old(disk.records)
              || (k !in old(disk.records) && RecordSound(record, k)
                  && disk.records == old(disk.records)[k := record])
      ensures r.Ok? ==>
        && k !in old(disk.records) && disk.records == old(disk.records)[k := record]
        && Exact(disk.capacity, disk.records.Keys)
      ensures r == Err(Full) ==> |old(disk.records)| == cfg.maxRecords
      ensures old(disk.capacity.cleanupPending) ==> r == Err(Corrupt)
      ensures r == Err(Io) ==> writes == 0 && old(writes) < SettleCost(old(disk.capacity)) + 3
      ensures r.Err? && r.error !in {Full, Io} ==>
        r.error == Corrupt
        && (k in old(disk.records) || old(disk.capacity.cleanupPending)
            || !RecordSound(record, k) || !cfg.Fits(record))
    {
      hide DiskValid, RecordSound, Counts, Exact, Reserve, Settle;
      var recovered := RecoverCapacity();
      if recovered.Err? { return Err(recovered.error); }
      if k in disk.records { return Err(Corrupt); }
      MaximumIsConfigured(cfg, disk);
      CleanupBlocksReserve(disk.capacity, k);
      if disk.capacity.cleanupPending { return Err(Corrupt); }
      AdmissionCounts(disk.capacity, disk.records.Keys, k);
      ExactMeans(disk.capacity, disk.records);
      var reserved := Reserve(disk.capacity, k);
      if reserved.Err? { return Err(reserved.error); }
      ReserveMarks(disk.capacity, k);
      var marked := SaveCapacity(reserved.value);
      if marked.Err? { return Err(marked.error); }
      if !RecordSound(record, k) || !cfg.Fits(record) { return Err(Corrupt); }
      r := WriteReserved(k, record);
    }

    /** Writes the record a slot was reserved for, then settles the slot. */
    method WriteReserved(k: Key, record: Record) returns (r: Result<(), LedgerError>)
      requires Valid() && k !in disk.records && disk.capacity.pending == Some(k)
      requires record.lastSeen <= disk.clock && record.state.Running? && RecordSound(record, k) && cfg.Fits(record)
      requires Settle(disk.capacity, true).Ok?
      requires Exact(Settle(disk.capacity, true).value, disk.records.Keys + {k})
      modifies this
      ensures Valid() && disk.reports == old(disk.reports) && disk.clock == old(disk.clock)
      ensures disk.records == old(disk.records) || disk.records == old(disk.records)[k := record]
      ensures r.Ok? ==> disk.records == old(disk.records)[k := record] && Exact(disk.capacity, disk.records.Keys)
      ensures r.Err? ==> r.error == Io && writes == 0 && old(writes) < 2
    {
      hide DiskValid, RecordSound, Counts, Exact, Settle;
      MaximumIsConfigured(cfg, disk);
      RecordCreated(cfg, disk, k, record);
      var settled := Settle(disk.capacity, true).value;
      SettleKeepsMaximum(disk.capacity);
      var written := Commit(disk.(records := disk.records[k := record]));
      if !written { return Err(Io); }
      assert disk.records.Keys == old(disk.records.Keys) + {k};
      ExactCounts(settled, disk.records.Keys);
      r := SaveCapacity(settled);
    }

    /** Full-root maintenance: settle the counter, move the clock, drop what is dead. */
    method Cleanup(reading: int) returns (out: Outcome)
      requires Valid()
      modifies this
      ensures Valid()
      ensures Step(old(disk), Op.Cleanup, out, disk)
      ensures out.Failed? ==>
        Excused(cfg, Inputs(old(writes), reading, reading, None), old(disk), Op.Cleanup, out.error, disk)
      ensures out.Cleaned? ==> reading >= 0 && disk.clock == Max(old(disk.clock), reading)
      ensures disk.clock in {old(disk.clock), reading}
    {
      hide DiskValid, Exact, Counts, Reconcile, DiskNext, CleanupAnswer, RemovableKeys, DeadReports, Removable, Step;
      CleanupFails(old(disk), disk, Clock);
      if reading < 0 { return Failed(Clock); }
      var prepared := PrepareCapacity();
      CleanupFails(old(disk), disk, Io);
      if prepared.Err? { return Failed(prepared.error); }
      var now := ObserveClock(reading);
      CleanupFails(old(disk), disk, Io);
      if now.Err? { return Failed(now.error); }
      var swept := RemoveDeadReports();
      CleanupFails(old(disk), disk, Io);
      if swept.Err? { return Failed(swept.error); }
      ghost var gone;
      out, gone := RemoveExpired(now.value);
      CleanupEnds(old(disk), out, disk, gone);
    }

    method PrepareCapacity() returns (r: Result<(), LedgerError>)
      requires Valid()
      modifies this
      ensures Valid() && disk == old(disk).(capacity := disk.capacity)
      ensures r.Ok? ==> Exact(disk.capacity, disk.records.Keys)
      ensures
        var cost := if old(disk.capacity.pending).Some? || old(disk.capacity.cleanupPending) then 1 else 0;
        if r.Ok? then writes == old(writes) - cost else r.error == Io && writes == 0 && old(writes) < cost
    {
      ReconcileIsExact(disk.capacity, disk.records.Keys);
      var capacity := Reconcile(disk.capacity, disk.records.Keys).value;
      if disk.capacity.pending.Some? || disk.capacity.cleanupPending {
        r := SaveCapacity(capacity);
      } else {
        r := Ok(());
      }
    }

    method RemoveDeadReports() returns (r: Result<(), LedgerError>)
      requires Valid()
      modifies this
      ensures Valid() && disk == old(disk).(reports := disk.reports)
      ensures r.Ok? ==>
        disk.reports == old(disk).reports - DeadReports(old(disk.records), old(disk.reports))
      ensures
        var cost := |DeadReports(old(disk.records), old(disk.reports))|;
        if r.Ok? then writes == old(writes) - cost else r.error == Io && writes == 0 && old(writes) < cost
    {
      hide DiskValid;
      var dead := DeadReports(disk.records, disk.reports);
      var left := dead;
      while left != {}
        invariant Valid() && left <= dead
        invariant disk == old(disk).(reports := old(disk).reports - (dead - left))
        invariant writes + |dead - left| == old(writes)
        decreases left
      {
        var k :| k in left;
        var removed := RemoveReport(k);
        FewerGone(dead, left, dead - left);
        if removed.Err? { return Err(removed.error); }
        Without(old(disk).reports, dead - left, k);
        OneMoreGone(dead, left, dead - left, k);
        left := left - {k};
      }
      assert dead - {} == dead;
      r := Ok(());
    }

    /** Removes every completed record past its replay end, between two counter writes. */
    method RemoveExpired(now: int) returns (out: Outcome, ghost gone: set<Key>)
      requires Valid() && now == disk.clock && Exact(disk.capacity, disk.records.Keys)
      modifies this
      ensures Valid() && disk.reports == old(disk.reports) && disk.clock == old(disk.clock)
      ensures disk.records == old(disk.records) - gone
      ensures forall k :: k in gone ==> k in old(disk.records) && Removable(old(disk.records)[k], now)
      ensures out.Cleaned? ==>
        && gone == RemovableKeys(old(disk.records), now)
        && out.removed == |gone| && Exact(disk.capacity, disk.records.Keys)
      ensures out.Cleaned? || (out == Failed(Io) && writes == 0)
      ensures out.Failed? ==> (disk.capacity.cleanupPending <==> old(writes) > 0)
      ensures out.Failed? <==>
        RemovableKeys(old(disk.records), now) != {} && old(writes) < |RemovableKeys(old(disk.records), now)| + 2
    {
      hide DiskValid, Counts, Removable;
      var expired := RemovableKeys(disk.records, now);
      gone := {};
      if expired == {} { return Cleaned(0), gone; }
      MaximumIsConfigured(cfg, disk);
      CleanupBegins(disk.capacity, disk.records.Keys, expired);
      var begun := BeginCleanup(disk.capacity).value;
      var saved := SaveCapacity(begun);
      if saved.Err? { return Failed(saved.error), gone; }
      var left := expired;
      while left != {}
        invariant Valid() && left <= expired && gone == expired - left
        invariant disk == old(disk).(capacity := begun, records := old(disk).records - gone)
        invariant writes + |gone| + 1 == old(writes)
        decreases left
      {
        var k :| k in left;
        RecordRemoved(cfg, disk, k);
        var ok := Commit(disk.(records := disk.records - {k}));
        if !ok { FewerGone(expired, left, gone); return Failed(Io), gone; }
        Without(old(disk).records, gone, k);
        OneMoreGone(expired, left, gone, k);
        left := left - {k};
        gone := gone + {k};
      }
      assert gone == expired;
      assert disk.records.Keys == old(disk.records.Keys) - expired;
      CleanupFinishes(old(disk).capacity, old(disk.records.Keys), expired);
      saved := SaveCapacity(FinishCleanup(begun, |disk.records.Keys|).value);
      if saved.Err? { return Failed(saved.error), gone; }
      out := Cleaned(|expired|);
    }
  }

  /** One owner's session on a root. */
  class FileLedger {
    const root: LedgerRoot
    const owner: Text

    constructor (root: LedgerRoot, owner: Text)
      ensures this.root == root && this.owner == owner
    {
      this.root := root;
      this.owner := owner;
    }

    /** The effective time of a call that has read a row last seen at `lastSeen`. */
    method Now(reading: int, lastSeen: int) returns (r: Result<int, LedgerError>)
      requires root.Valid() && lastSeen <= root.disk.clock
      modifies root
      ensures root.Valid() && root.disk == old(root.disk).(clock := root.disk.clock)
      ensures old(root.disk.clock) <= root.disk.clock
      ensures r.Ok? ==> reading >= 0 && r.value == root.disk.clock == Max(old(root.disk.clock), reading)
      ensures r.Ok? ==> root.writes == old(root.writes) - Tick(old(root.disk.clock), reading)
      ensures r.Err? ==> root.disk == old(root.disk)
      ensures r.Err? ==>
        if r.error == Clock then reading < 0
        else r.error == Io && root.writes == 0 && old(root.writes) < Tick(old(root.disk.clock), reading)
    {
      hide DiskValid;
      var now :- root.ObserveClock(reading);
      r := Ok(Max(now, lastSeen));
    }

    function Deadline(now: int): Result<int, LedgerError>
    {
      if now + root.cfg.leaseMillis > I64_MAX then Err(Clock) else Ok(now + root.cfg.leaseMillis)
    }

    /** An answer to `op` on the root as it was at `d`: in time, and a failure with an outside cause. */
    ghost predicate Accounts(d: Disk, op: Op, inputs: Inputs, out: Outcome)
      reads root
    {
      && Timed(root.cfg, inputs, d, op, out, root.disk)
      && (out.Failed? ==> Excused(root.cfg, inputs, d, op, out.error, root.disk))
      && (out == Failed(Io) ==> root.writes == 0)
    }

    /** The answer is a step of the shared root as well. */
    ghost predicate Replies(d: Disk, op: Op, inputs: Inputs, out: Outcome)
      reads root
    {
      Answered(root.cfg, inputs, d, op, out, root.disk) && (out == Failed(Io) ==> root.writes == 0)
    }

    method Claim(delivery: AcceptedDelivery, check: Text, first: int, second: int, nonce: Option<Text>)
      returns (out: Outcome)
      requires root.Valid()
      modifies root
      ensures root.Valid()
      ensures Replies(
        old(root.disk), Op.Claim(owner, delivery, check), Inputs(old(root.writes), first, second, nonce), out)
    {
      hide DiskValid, DiskNext, OnlyRow, Excused, Timed, ClaimAnswer;
      out := ClaimRow(delivery, check, first, second, nonce);
      OnlyRowIsNext(old(root.disk), root.disk, delivery.Key());
    }

    method ClaimRow(delivery: AcceptedDelivery, check: Text, first: int, second: int, nonce: Option<Text>)
      returns (out: Outcome)
      requires root.Valid()
      modifies root
      ensures root.Valid() && OnlyRow(old(root.disk), root.disk, delivery.Key())
      ensures ClaimAnswer(owner, delivery, check, old(root.disk), out, root.disk)
      ensures Accounts(
        old(root.disk), Op.Claim(owner, delivery, check), Inputs(old(root.writes), first, second, nonce), out)
      ensures ForeignWindow(root.cfg, delivery) ==> out == Failed(Configuration)
    {
      hide DiskValid, OnlyRow, RowNext, ClaimCorrupt;
      var k := delivery.Key();
      ghost var inputs := Inputs(root.writes, first, second, nonce);
      RecordsKept(root.disk, root.disk, k);
      if !WindowMatches(root.cfg, delivery) { return Failed(Configuration); }
      if k !in root.disk.records {
        out := ClaimAbsent(delivery, check, first, second, nonce);
        return;
      }
      var record := root.disk.records[k];
      if !record.Matches(delivery, check) { return BindingConflict; }
      match record.state
      case Running(_, _, _) => out := ClaimRunning(delivery, check, second, inputs);
      case Staged(_, publication) =>
        if publication.gateCommit.None? {
          out := ClaimLegacy(delivery, check, second, inputs);
        } else {
          StagedReadsBack(root.cfg, root.disk, k);
          out := Publish(Materialized(k));
        }
      case Done(_, _) =>
        ghost var before := root.disk;
        var removed := root.RemoveReport(k);
        RecordsKept(before, root.disk, k);
        out := if removed.Err? then Failed(removed.error) else Duplicate(record.evaluation);
    }

    /** A delivery without a row: refused past its replay end, else admitted. */
    method ClaimAbsent(delivery: AcceptedDelivery, check: Text, first: int, second: int, nonce: Option<Text>)
      returns (out: Outcome)
      requires root.Valid() && delivery.Key() !in root.disk.records
      modifies root
      ensures root.Valid() && OnlyRow(old(root.disk), root.disk, delivery.Key())
      ensures ClaimAnswer(owner, delivery, check, old(root.disk), out, root.disk)
      ensures Accounts(
        old(root.disk), Op.Claim(owner, delivery, check), Inputs(old(root.writes), first, second, nonce), out)
    {
      hide DiskValid, OnlyRow, RowNext, ClaimCorrupt;
      var k := delivery.Key();
      ClockIsNatural(root.cfg, root.disk);
      var now := Now(first, 0);
      RecordsKept(old(root.disk), root.disk, k);
      if now.Err? { return Failed(now.error); }
      if KeepEnded(delivery.KeepUntil(), now.value) { return Failed(Expired); }
      ghost var mid := root.disk;
      out := ClaimNew(delivery, check, second, nonce);
      OnlyRowAfter(old(root.disk), mid, root.disk, k);
      ClaimCorruptEarlier(root.cfg, mid, old(root.disk), owner, delivery, check, nonce, root.disk.clock);
    }

    /** The staged publication a frozen row stands for. */
    function Materialized(k: Key): (staged: StagedPublication)
      requires k in root.disk.records && root.disk.records[k].Frozen()
      reads root
    {
      var record := root.disk.records[k];
      StagedPublication(
        record.evaluation, record.state.fence,
        Materialize(record.state.publication, ReportOf(record.state.publication, ReportFile(root.disk, k))))
    }

    method ClaimNew(delivery: AcceptedDelivery, check: Text, reading: int, nonce: Option<Text>)
      returns (out: Outcome)
      requires root.Valid() && delivery.Key() !in root.disk.records
      requires !KeepEnded(delivery.KeepUntil(), root.disk.clock)
      modifies root
      ensures root.Valid() && OnlyRow(old(root.disk), root.disk, delivery.Key())
      ensures ClaimAnswer(owner, delivery, check, old(root.disk), out, root.disk)
      ensures root.disk.clock in {old(root.disk.clock), Max(old(root.disk.clock), reading)}
      ensures out.Execute? || out.Failed?
      ensures out.Execute? ==>
        && 0 <= reading && root.disk.clock == Max(old(root.disk.clock), reading) && nonce.Some?
        && out.lease.expiresAt == root.disk.clock + root.cfg.leaseMillis <= I64_MAX
        && out.lease.evaluation == EvaluationId(delivery.Key(), nonce.value)
      ensures out.Failed? ==> NewFails(
        root.cfg, old(root.disk), owner, delivery, check, reading, nonce, old(root.writes), out.error, root.disk)
      ensures out == Failed(Io) ==> root.writes == 0
    {
      hide DiskValid, OnlyRow, RowNext, ClaimCorrupt;
      var k := delivery.Key();
      ClockIsNatural(root.cfg, root.disk);
      var now := Now(reading, 0);
      RecordsKept(old(root.disk), root.disk, k);
      if now.Err? { return Failed(now.error); }
      if nonce.None? { return Failed(Random); }
      var deadline := Deadline(now.value);
      if deadline.Err? { return Failed(deadline.error); }
      ClaimCorruptEarlier(root.cfg, root.disk, old(root.disk), owner, delivery, check, nonce, now.value);
      out := Admit(delivery, check, nonce.value, now.value, old(root.disk));
    }

    /** Writes the record of a first claim. */
    method Admit(delivery: AcceptedDelivery, check: Text, nonce: Text, now: int, ghost before: Disk)
      returns (out: Outcome)
      requires root.Valid() && delivery.Key() !in root.disk.records && 0 <= now == root.disk.clock
      requires before.clock <= now && root.disk == before.(clock := now)
      requires !KeepEnded(delivery.KeepUntil(), before.clock)
      modifies root
      ensures root.Valid() && OnlyRow(before, root.disk, delivery.Key()) && root.disk.clock == now
      ensures ClaimAnswer(owner, delivery, check, before, out, root.disk)
      ensures out.Execute? || out.Failed?
      ensures out.Execute? ==>
        out.lease.expiresAt == now + root.cfg.leaseMillis && out.lease.evaluation == EvaluationId(delivery.Key(), nonce)
      ensures out.Failed? ==>
        match out.error
        case Full => true
        case Corrupt => ClaimCorrupt(root.cfg, old(root.disk), owner, delivery, check, Some(nonce), now)
        case Io => root.writes == 0 && old(root.writes) < SettleCost(before.capacity) + 3
        case _ => false
    {
      hide DiskValid, OnlyRow, RecordSound;
      var k := delivery.Key();
      LeaseIsPositive(root.cfg, root.disk);
      MaximumIsConfigured(root.cfg, root.disk);
      var record := Admission(root.cfg, owner, delivery, check, nonce, now);
      NewRecordSound(record, k);
      ghost var d := root.disk;
      var saved := root.SaveNew(k, record);
      if root.disk.records == d.records {
        RecordsKept(before, root.disk, k);
      } else {
        RecordMoved(before, root.disk, k, record);
      }
      if saved.Ok? { RoomBefore(root.cfg, d, root.disk, k, record); }
      out := if saved.Err? then Failed(saved.error) else Execute(LeaseOf(record));
    }

    method ClaimRunning(delivery: AcceptedDelivery, check: Text, reading: int, ghost inputs: Inputs)
      returns (out: Outcome)
      requires inputs.writes == root.writes && inputs.second == reading
      requires root.Valid() && delivery.Key() in root.disk.records
      requires root.disk.records[delivery.Key()].Matches(delivery, check)
      requires root.disk.records[delivery.Key()].state.Running?
      modifies root
      ensures root.Valid() && OnlyRow(old(root.disk), root.disk, delivery.Key())
      ensures ClaimAnswer(owner, delivery, check, old(root.disk), out, root.disk)
      ensures Accounts(old(root.disk), Op.Claim(owner, delivery, check), inputs, out)
    {
      hide DiskValid, OnlyRow, RowNext;
      var k := delivery.Key();
      var record := root.disk.records[k];
      SeenInThePast(root.cfg, root.disk, k);
      var now := Now(reading, record.lastSeen);
      RecordsKept(old(root.disk), root.disk, k);
      if now.Err? { return Failed(now.error); }
      if now.value < record.state.expiresAt {
        if record.state.owner == owner { return Execute(LeaseOf(record)); }
        return Busy(record.evaluation, record.state.expiresAt);
      }
      out := StartRunning(delivery, check, now.value, old(root.disk));
    }

    /** A publication staged before the gate commit was stored is evaluated again. */
    method ClaimLegacy(delivery: AcceptedDelivery, check: Text, reading: int, ghost inputs: Inputs)
      returns (out: Outcome)
      requires inputs.writes == root.writes && inputs.second == reading
      requires root.Valid() && delivery.Key() in root.disk.records
      requires root.disk.records[delivery.Key()].Matches(delivery, check)
      requires root.disk.records[delivery.Key()].state.Staged? && !root.disk.records[delivery.Key()].Frozen()
      modifies root
      ensures root.Valid() && OnlyRow(old(root.disk), root.disk, delivery.Key())
      ensures ClaimAnswer(owner, delivery, check, old(root.disk), out, root.disk)
      ensures Accounts(old(root.disk), Op.Claim(owner, delivery, check), inputs, out)
    {
      hide DiskValid, OnlyRow, RowNext, Unwritable, Reclaimed, KeepEnded, ClaimAnswer;
      var k := delivery.Key();
      var record := root.disk.records[k];
      SeenInThePast(root.cfg, root.disk, k);
      var now := Now(reading, record.lastSeen);
      RecordsKept(old(root.disk), root.disk, k);
      IoIsAnAnswer(owner, delivery, check, old(root.disk), root.disk);
      if now.Err? { return Failed(now.error); }
      out := StartRunning(delivery, check, now.value, old(root.disk));
      if out.Execute? {
        ghost var started := root.disk;
        var removed := root.RemoveReport(k);
        OnlyRowThenReport(old(root.disk), started, root.disk, k);
        SameAnswer(owner, delivery, check, old(root.disk), out, started, root.disk);
        IoIsAnAnswer(owner, delivery, check, old(root.disk), root.disk);
        if removed.Err? { out := Failed(removed.error); }
      }
    }

    /** Reclaims an expired or legacy row under the next fence. */
    method StartRunning(delivery: AcceptedDelivery, check: Text, now: int, ghost before: Disk) returns (out: Outcome)
      requires root.Valid() && delivery.Key() in root.disk.records && now == root.disk.clock
      requires before.clock <= now && root.disk == before.(clock := now)
      requires root.disk.records[delivery.Key()].Matches(delivery, check)
      requires Reclaimable(root.disk.records[delivery.Key()], now)
      modifies root
      ensures root.Valid() && OnlyRow(before, root.disk, delivery.Key())
      ensures ClaimAnswer(owner, delivery, check, before, out, root.disk)
      ensures out.Execute? || out.Failed?
      ensures root.disk == old(root.disk).(records := root.disk.records)
      ensures out.Execute? ==>
        && out.lease.expiresAt == now + root.cfg.leaseMillis <= I64_MAX && root.writes == old(root.writes) - 1
        && root.disk.records[delivery.Key()].state.Running?
      ensures out.Failed? ==>
        var record := before.records[delivery.Key()];
        match out.error
        case Clock => record.state.fence < U64_MAX && now + root.cfg.leaseMillis > I64_MAX
        case Corrupt => Unwritable(root.cfg, record, now, Reclaimed(root.cfg, owner, record, now))
        case Io => root.writes == 0 == old(root.writes)
        case _ => false
    {
      hide DiskValid, OnlyRow, RowNext, RecordSound, StateMove, ReportSound, KeepEnded;
      var k := delivery.Key();
      var record := root.disk.records[k];
      RecordsKept(before, root.disk, k);
      SeenInThePast(root.cfg, root.disk, k);
      StoredIsSound(root.cfg, root.disk, k);
      LeaseIsPositive(root.cfg, root.disk);
      FenceIsCounted(record, k);
      if record.state.fence >= U64_MAX { return Failed(Corrupt); }
      var deadline := Deadline(now);
      if deadline.Err? { return Failed(deadline.error); }
      var state := Running(owner, record.state.fence + 1, deadline.value);
      RunningStaysSound(record, k, now, state);
      ReclaimMoves(record, now, state, ReportFile(root.disk, k));
      var moved := MoveRow(k, now, state, before);
      if moved.Err? { return Failed(moved.error); }
      out := Execute(LeaseOf(Moved(record, now, state)));
    }

    method Renew(delivery: AcceptedDelivery, lease: DeliveryLease, reading: int) returns (out: Outcome)
      requires root.Valid()
      modifies root
      ensures root.Valid()
      ensures Replies(
        old(root.disk), Op.Renew(owner, delivery, lease), Inputs(old(root.writes), reading, reading, None), out)
    {
      hide DiskValid, DiskNext, OnlyRow, Excused, Timed, RenewAnswer;
      out := RenewRow(delivery, lease, reading);
      OnlyRowIsNext(old(root.disk), root.disk, delivery.Key());
    }

    method RenewRow(delivery: AcceptedDelivery, lease: DeliveryLease, reading: int) returns (out: Outcome)
      requires root.Valid()
      modifies root
      ensures root.Valid() && OnlyRow(old(root.disk), root.disk, delivery.Key())
      ensures RenewAnswer(owner, delivery, lease, old(root.disk), out, root.disk)
      ensures Accounts(
        old(root.disk), Op.Renew(owner, delivery, lease), Inputs(old(root.writes), reading, reading, None), out)
      ensures ForeignWindow(root.cfg, delivery) ==> out == Failed(Configuration)
    {
      hide DiskValid, OnlyRow, RowNext, Unwritable, RenewedState;
      var k := delivery.Key();
      RecordsKept(root.disk, root.disk, k);
      if !WindowMatches(root.cfg, delivery) { return Failed(Configuration); }
      if k !in root.disk.records { return Lost; }
      var record := root.disk.records[k];
      if !record.Matches(delivery, lease.check) || !record.state.Running? { return Lost; }
      if record.state.owner != owner || LeaseOf(record) != lease { return Lost; }
      SeenInThePast(root.cfg, root.disk, k);
      var now := Now(reading, record.lastSeen);
      RecordsKept(old(root.disk), root.disk, k);
      if now.Err? { return Failed(now.error); }
      if now.value >= lease.expiresAt { return Lost; }
      out := Extend(delivery, lease, now.value, old(root.disk));
    }

    /** Extends the lease of a row that holds it. */
    method Extend(delivery: AcceptedDelivery, lease: DeliveryLease, now: int, ghost before: Disk)
      returns (out: Outcome)
      requires root.Valid() && before.clock <= root.disk.clock == now && root.disk == before.(clock := root.disk.clock)
      requires HoldsLease(Row(before, delivery.Key()), owner, delivery, lease, now)
      modifies root
      ensures root.Valid() && OnlyRow(before, root.disk, delivery.Key()) && root.disk.clock == now
      ensures RenewAnswer(owner, delivery, lease, before, out, root.disk)
      ensures out.Renewed? ==>
        out.lease.expiresAt == Max(lease.expiresAt, now + root.cfg.leaseMillis) && now + root.cfg.leaseMillis <= I64_MAX
      ensures out.Renewed? || out.Failed?
      ensures out.Failed? ==>
        match out.error
        case Clock => now + root.cfg.leaseMillis > I64_MAX
        case Corrupt =>
          Unwritable(root.cfg, before.records[delivery.Key()], now, RenewedState(root.cfg, owner, lease, now))
        case Io => root.writes == 0 == old(root.writes)
        case _ => false
    {
      hide DiskValid, OnlyRow, RowNext, RecordSound, StateMove, ReportSound;
      var k := delivery.Key();
      var record := root.disk.records[k];
      RecordsKept(before, root.disk, k);
      SeenInThePast(root.cfg, root.disk, k);
      var deadline := Deadline(now);
      if deadline.Err? { return Failed(deadline.error); }
      var renewed := Max(lease.expiresAt, deadline.value);
      StoredIsSound(root.cfg, root.disk, k);
      LeaseIsPositive(root.cfg, root.disk);
      FenceIsCounted(record, k);
      RunningStaysSound(record, k, now, Running(owner, lease.fence, renewed));
      RenewalMoves(record, now, renewed, ReportFile(root.disk, k));
      var moved := MoveRow(k, now, Running(owner, lease.fence, renewed), before);
      out := if moved.Err? then Failed(moved.error) else Renewed(lease.(expiresAt := renewed));
    }

    /** Advances a row to a new state and saves it. */
    method MoveRow(k: Key, now: int, state: State, ghost before: Disk) returns (r: Result<(), LedgerError>)
      requires root.Valid() && k in root.disk.records
      requires root.disk.records[k].lastSeen <= now <= root.disk.clock
      requires before.records == root.disk.records && before.clock <= root.disk.clock
      requires forall x :: x != k ==> ReportFile(root.disk, x) == ReportFile(before, x)
      requires StateMove(root.disk.records[k], Moved(root.disk.records[k], now, state))
      requires ReportSound(Moved(root.disk.records[k], now, state), ReportFile(root.disk, k))
      modifies root
      ensures root.Valid() && OnlyRow(before, root.disk, k)
      ensures root.disk == old(root.disk).(records := root.disk.records)
      ensures r.Err? ==>
        var record := old(root.disk).records[k];
        if r.error == Corrupt then
          record.generation >= U64_MAX || !RecordSound(Moved(record, now, state), k)
          || !root.cfg.Fits(Moved(record, now, state))
        else r.error == Io && root.writes == 0 == old(root.writes)
      ensures r.Ok? ==> root.writes == old(root.writes) - 1
      ensures
        var record := old(root.disk).records[k];
        Row(root.disk, k) == Some(if r.Ok? then Moved(record, now, state) else record)
    {
      hide DiskValid, OnlyRow, RecordSound, StateMove, ReportSound;
      var record := root.disk.records[k];
      RecordsKept(before, root.disk, k);
      var next := record.Advance(now, state);
      if next.Err? { return Err(next.error); }
      var saved := root.Save(k, next.value);
      if saved.Err? { return Err(saved.error); }
      assert RowNext(k, Row(before, k), Some(next.value), before.clock, root.disk.clock);
      RecordMoved(before, root.disk, k, next.value);
      r := Ok(());
    }

    method Stage(delivery: AcceptedDelivery, lease: DeliveryLease, publication: Publication, reading: int)
      returns (out: Outcome)
      requires root.Valid()
      modifies root
      ensures root.Valid()
      ensures Replies(
        old(root.disk), Op.Stage(owner, delivery, lease, publication), Inputs(old(root.writes), reading, reading, None),
        out)
    {
      hide DiskValid, DiskNext, OnlyRow, RowNext;
      var k := delivery.Key();
      RecordsKept(root.disk, root.disk, k);
      OnlyRowIsNext(root.disk, root.disk, k);
      if !WindowMatches(root.cfg, delivery) { return Failed(Configuration); }
      if k !in root.disk.records { return Lost; }
      var record := root.disk.records[k];
      StagedIsBound(root.cfg, root.disk, k);
      if !record.Matches(delivery, lease.check) || !Bound(record, publication.verdict) { return Lost; }
      match record.state
      case Done(_, _) => out := Lost;
      case Staged(_, stored) =>
        if stored.gateCommit.None? { return Failed(Corrupt); }
        StagedReadsBack(root.cfg, root.disk, k);
        StoredRoundTrip(publication, stored, ReportOf(stored, ReportFile(root.disk, k)));
        var existing := Materialized(k);
        out := if existing == StagedPublication(lease.evaluation, lease.fence, publication)
               then Froze(existing) else Lost;
      case Running(_, _, _) =>
        out := StageRunning(delivery, lease, publication, reading);
        OnlyRowIsNext(old(root.disk), root.disk, k);
    }

    method StageRunning(delivery: AcceptedDelivery, lease: DeliveryLease, publication: Publication, reading: int)
      returns (out: Outcome)
      requires root.Valid() && delivery.Key() in root.disk.records
      requires root.disk.records[delivery.Key()].Matches(delivery, lease.check)
      requires Bound(root.disk.records[delivery.Key()], publication.verdict)
      requires root.disk.records[delivery.Key()].state.Running?
      modifies root
      ensures root.Valid() && OnlyRow(old(root.disk), root.disk, delivery.Key())
      ensures StageAnswer(owner, delivery, lease, publication, old(root.disk), out, root.disk)
      ensures Accounts(
        old(root.disk), Op.Stage(owner, delivery, lease, publication), Inputs(old(root.writes), reading, reading, None),
        out)
    {
      hide DiskValid, OnlyRow, RowNext, StoredOf, StoreDefect, Bound, StageCorrupt;
      var k := delivery.Key();
      var record := root.disk.records[k];
      RecordsKept(root.disk, root.disk, k);
      if record.state.owner != owner || LeaseOf(record) != lease { return Lost; }
      SeenInThePast(root.cfg, root.disk, k);
      var now := Now(reading, record.lastSeen);
      RecordsKept(old(root.disk), root.disk, k);
      if now.Err? { return Failed(now.error); }
      if now.value >= lease.expiresAt { return Lost; }
      out := Freeze(delivery, lease, publication, now.value, old(root.disk));
    }

    /** Saves the report and freezes the publication of a row whose lease is live. */
    method Freeze(
      delivery: AcceptedDelivery, lease: DeliveryLease, publication: Publication, now: int, ghost before: Disk)
      returns (out: Outcome)
      requires root.Valid() && before.clock <= root.disk.clock == now && root.disk == before.(clock := root.disk.clock)
      requires HoldsLease(Row(before, delivery.Key()), owner, delivery, lease, now)
      requires Bound(root.disk.records[delivery.Key()], publication.verdict)
      modifies root
      ensures root.Valid() && OnlyRow(before, root.disk, delivery.Key())
      ensures StageAnswer(owner, delivery, lease, publication, before, out, root.disk)
      ensures root.disk.clock == now && (out.Froze? || out.Failed?)
      ensures out.Failed? ==>
        match out.error
        case Corrupt => StageCorrupt(
          root.cfg, Row(before, delivery.Key()), owner, delivery, lease, publication, now)
        case ReportTooLarge => Oversized(publication)
        case Io =>
          && root.writes == 0
          && old(root.writes) < ReportCost(before, delivery.Key()) + (if publication.report.Some? then 1 else 0) + 1
        case _ => false
    {
      hide DiskValid, OnlyRow, RowNext, RecordSound, StateMove, ReportSound, StoredOf, StoreDefect, Bound;
      var k := delivery.Key();
      var record := root.disk.records[k];
      SeenInThePast(root.cfg, root.disk, k);
      RecordsKept(before, root.disk, k);
      DefectKinds(publication);
      DefectMeans(publication);
      SpeaksMeans(record, publication.verdict);
      HoldingMeans(Row(before, k), owner, delivery, lease, now);
      if StoreDefect(publication).Some? { return Failed(StoreDefect(publication).value); }
      var written := root.ReplaceReport(k, publication.report);
      RecordsKept(before, root.disk, k);
      if written.Err? { return Failed(written.error); }
      StoredIsSound(root.cfg, root.disk, k);
      FenceIsCounted(record, k);
      StagingStaysSound(record, k, now, lease.fence, publication);
      StagingMoves(record, now, publication);
      var moved := MoveRow(k, now, Staged(lease.fence, StoredOf(publication)), before);
      out := if moved.Err? then Failed(moved.error)
             else Froze(StagedPublication(lease.evaluation, lease.fence, publication));
    }

    method Complete(delivery: AcceptedDelivery, staged: StagedPublication, reading: int) returns (out: Outcome)
      requires root.Valid()
      modifies root
      ensures root.Valid()
      ensures Replies(
        old(root.disk), Op.Complete(delivery, staged), Inputs(old(root.writes), reading, reading, None), out)
    {
      hide DiskValid, DiskNext, OnlyRow;
      var k := delivery.Key();
      RecordsKept(root.disk, root.disk, k);
      OnlyRowIsNext(root.disk, root.disk, k);
      if !WindowMatches(root.cfg, delivery) { return Failed(Configuration); }
      if k !in root.disk.records {
        ClockIsNatural(root.cfg, root.disk);
        var now := Now(reading, 0);
        RecordsKept(old(root.disk), root.disk, k);
        OnlyRowIsNext(old(root.disk), root.disk, k);
        return if now.Err? then Failed(now.error) else Lost;
      }
      out := CompleteRecord(delivery, staged);
      OnlyRowIsNext(old(root.disk), root.disk, k);
    }

    method CompleteRecord(delivery: AcceptedDelivery, staged: StagedPublication) returns (out: Outcome)
      requires root.Valid() && delivery.Key() in root.disk.records
      modifies root
      ensures root.Valid() && OnlyRow(old(root.disk), root.disk, delivery.Key())
      ensures CompleteAnswer(delivery, staged, old(root.disk), out, root.disk)
      ensures root.disk.clock == old(root.disk.clock)
      ensures out.Failed? ==>
        match out.error
        case Corrupt => CompleteCorrupt(root.cfg, Row(old(root.disk), delivery.Key()), delivery, staged)
        case Io => root.writes == 0 && old(root.writes) < 1 + ReportCost(old(root.disk), delivery.Key())
        case _ => false
    {
      hide DiskValid, OnlyRow, RowNext;
      var k := delivery.Key();
      var record := root.disk.records[k];
      RecordsKept(root.disk, root.disk, k);
      if !record.Matches(delivery, staged.publication.verdict.check) || record.evaluation != staged.evaluation {
        return Lost;
      }
      var defect := StoreDefect(staged.publication);
      if defect == Some(ReportTooLarge) { return Lost; }
      if defect.Some? { return Failed(defect.value); }
      var requested := StoredOf(staged.publication);
      var digest := OfStaged(record.evaluation, staged.fence, requested);
      match record.state
      case Running(_, _, _) => out := Lost;
      case Done(fence, stagedDigest) =>
        if fence != staged.fence || stagedDigest != digest { return Lost; }
        var removed := root.RemoveReport(k);
        RecordsKept(old(root.disk), root.disk, k);
        out := if removed.Err? then Failed(removed.error) else Completed;
      case Staged(_, _) => out := CompleteStaged(delivery, staged, digest);
    }

    method CompleteStaged(delivery: AcceptedDelivery, staged: StagedPublication, digest: Digest) returns (out: Outcome)
      requires root.Valid() && delivery.Key() in root.disk.records
      requires root.disk.records[delivery.Key()].Matches(delivery, staged.publication.verdict.check)
      requires root.disk.records[delivery.Key()].evaluation == staged.evaluation
      requires root.disk.records[delivery.Key()].state.Staged?
      requires digest == OfStaged(staged.evaluation, staged.fence, StoredOf(staged.publication))
      requires StoreDefect(staged.publication).None?
      modifies root
      ensures root.Valid() && OnlyRow(old(root.disk), root.disk, delivery.Key())
      ensures CompleteAnswer(delivery, staged, old(root.disk), out, root.disk)
      ensures root.disk.clock == old(root.disk.clock)
      ensures out.Failed? ==>
        match out.error
        case Corrupt => CompleteCorrupt(root.cfg, Row(old(root.disk), delivery.Key()), delivery, staged)
        case Io => root.writes == 0 && old(root.writes) < 1 + ReportCost(old(root.disk), delivery.Key())
        case _ => false
    {
      hide DiskValid, OnlyRow, RowNext, RecordSound, StoredOf;
      var k := delivery.Key();
      var record := root.disk.records[k];
      var fence, stored := record.state.fence, record.state.publication;
      RecordsKept(root.disk, root.disk, k);
      StagedReadsBack(root.cfg, root.disk, k);
      StoredRoundTrip(staged.publication, stored, ReportOf(stored, ReportFile(root.disk, k)));
      StoredHasGate(staged.publication);
      if fence != staged.fence || OfStaged(record.evaluation, fence, stored) != digest
         || stored != StoredOf(staged.publication)
         || ReportOf(stored, ReportFile(root.disk, k)) != staged.publication.report
      {
        return Lost;
      }
      SeenInThePast(root.cfg, root.disk, k);
      StoredIsSound(root.cfg, root.disk, k);
      FenceIsCounted(record, k);
      CompletingStaysSound(record, k, digest);
      var moved := MoveRow(k, record.lastSeen, Done(fence, digest), old(root.disk));
      if moved.Err? { return Failed(moved.error); }
      ghost var done := root.disk;
      var removed := root.RemoveReport(k);
      OnlyRowThenReport(old(root.disk), done, root.disk, k);
      out := if removed.Err? then Failed(removed.error) else Completed;
    }
  }

  /** A root with one completed row whose replay end has passed. */
  function ExpiredMarker(cfg: Config, delivery: AuthenticatedDelivery, check: Text): Disk
  {
    var record := Record(
      1, 0, delivery, Some(0), check, EvaluationId(delivery.identity, []), Done(1, OfReport([])));
    Disk(map[delivery.identity := record], map[], Capacity(cfg.maxRecords, 1, None, false), 1)
  }

  lemma ExpiredMarkerIsValid(cfg: Config, delivery: AuthenticatedDelivery, check: Text)
    requires cfg.Valid() && delivery.identity.provider == delivery.change.provider
    requires cfg.Fits(ExpiredMarker(cfg, delivery, check).records[delivery.identity])
    ensures
      var d := ExpiredMarker(cfg, delivery, check);
      DiskValid(cfg, d) && Exact(d.capacity, d.records.Keys) && RemovableKeys(d.records, d.clock) != {}
  {
    var d := ExpiredMarker(cfg, delivery, check);
    assert d.records.Keys == {delivery.identity};
    assert delivery.identity in RemovableKeys(d.records, d.clock);
  }

  /**
   * A cleanup cut off between its two counter writes leaves a sound root that refuses
   * every admission as corrupt.
   */
  method CutCleanupBlocksAdmission(
    cfg: Config, delivery: AuthenticatedDelivery, check: Text, k: Key, record: Record)
    returns (cleaned: Outcome, admitted: Result<(), LedgerError>)
    requires cfg.Valid() && delivery.identity.provider == delivery.change.provider
    requires cfg.Fits(ExpiredMarker(cfg, delivery, check).records[delivery.identity])
    requires record.lastSeen <= 1 && record.state.Running?
    ensures cleaned == Failed(Io) && admitted == Err(Corrupt)
  {
    hide DiskValid, Exact, RemovableKeys, RecordSound;
    ExpiredMarkerIsValid(cfg, delivery, check);
    var root := new LedgerRoot.Found(cfg, ExpiredMarker(cfg, delivery, check), 1);
    ghost var gone;
    cleaned, gone := root.RemoveExpired(1);
    admitted := root.SaveNew(k, record);
  }

  /** A root whose one row is leased to `owner` until ten, at time zero. */
  function LiveRow(cfg: Config, owner: Text, delivery: AcceptedDelivery, check: Text): Disk
  {
    var record := Record(
      1, 0, delivery.delivery, delivery.KeepUntil(), check, EvaluationId(delivery.Key(), []), Running(owner, 1, 10));
    Disk(map[delivery.Key() := record], map[], Capacity(cfg.maxRecords, 1, None, false), 0)
  }

  lemma LiveRowIsValid(cfg: Config, owner: Text, delivery: AcceptedDelivery, check: Text)
    requires cfg.Valid() && delivery.delivery.identity.provider == delivery.delivery.change.provider
    requires delivery.KeepUntil().Some? ==> delivery.KeepUntil().value >= 0
    requires cfg.Fits(LiveRow(cfg, owner, delivery, check).records[delivery.Key()])
    ensures DiskValid(cfg, LiveRow(cfg, owner, delivery, check))
  {
    assert LiveRow(cfg, owner, delivery, check).records.Keys == {delivery.Key()};
  }

  /** An owner that claims its own live row again is handed the same fence: not every claim advances it. */
  method OwnClaimKeepsTheFence(cfg: Config, owner: Text, delivery: AcceptedDelivery, check: Text, reading: int)
    returns (out: Outcome)
    requires cfg.Valid() && delivery.delivery.identity.provider == delivery.delivery.change.provider
    requires delivery.KeepUntil().Some? ==> delivery.KeepUntil().value >= 0
    requires delivery.keep.KeepThrough? ==> delivery.keep.window == cfg.window
    requires 0 <= reading < 10
    requires cfg.Fits(LiveRow(cfg, owner, delivery, check).records[delivery.Key()])
    ensures out.Execute? && out.lease == LeaseOf(LiveRow(cfg, owner, delivery, check).records[delivery.Key()])
  {
    hide DiskValid, Step, Timed, Excused, Unwritable;
    LiveRowIsValid(cfg, owner, delivery, check);
    var d := LiveRow(cfg, owner, delivery, check);
    var root := new LedgerRoot.Found(cfg, d, 1);
    var ledger := new FileLedger(root, owner);
    ghost var inputs := Inputs(1, reading, reading, Some([]));
    out := ledger.Claim(delivery, check, reading, reading, Some([]));
    ClaimIsDecided(cfg, inputs, d, Op.Claim(owner, delivery, check), out, root.disk);
    KeptLease(cfg, inputs, d, owner, delivery, check, out, root.disk);
  }

  lemma KeptLease(
    cfg: Config, inputs: Inputs, d: Disk, owner: Text, delivery: AcceptedDelivery, check: Text, out: Outcome, d': Disk)
    requires Answered(cfg, inputs, d, Op.Claim(owner, delivery, check), out, d') && out.Execute?
    requires delivery.Key() in d.records && d.records[delivery.Key()].state.Running?
    requires Max(d.clock, inputs.second) < d.records[delivery.Key()].state.expiresAt
    ensures out.lease == LeaseOf(d.records[delivery.Key()])
  {
    hide DiskNext, Excused;
  }

  lemma OneMoreGone(expired: set<Key>, left: set<Key>, gone: set<Key>, k: Key)
    requires k in left && left <= expired && gone == expired - left
    ensures gone + {k} == expired - (left - {k}) && |gone + {k}| == |gone| + 1
  {
  }

  lemma FewerGone(expired: set<Key>, left: set<Key>, gone: set<Key>)
    requires left != {} && left <= expired && gone == expired - left
    ensures |gone| < |expired|
  {
    assert gone + left == expired;
  }

  lemma Without<T>(m: map<Key, T>, gone: set<Key>, k: Key)
    ensures m - gone - {k} == m - (gone + {k})
  {
  }

  lemma ClockIsNatural(cfg: Config, d: Disk)
    requires DiskValid(cfg, d)
    ensures 0 <= d.clock
  {
  }

  lemma LeaseIsPositive(cfg: Config, d: Disk)
    requires DiskValid(cfg, d)
    ensures 1 <= cfg.leaseMillis
  {
  }

  lemma SeenInThePast(cfg: Config, d: Disk, k: Key)
    requires DiskValid(cfg, d) && k in d.records
    ensures d.records[k].lastSeen <= d.clock && d.records[k].binding.identity == k
  {
    assert RowSound(d, k);
  }

  lemma StoredIsSound(cfg: Config, d: Disk, k: Key)
    requires DiskValid(cfg, d) && k in d.records
    ensures RecordSound(d.records[k], k)
  {
    hide RecordSound, ReportSound, Counts;
    assert RowSound(d, k);
  }

  lemma FenceIsCounted(record: Record, k: Key)
    requires RecordSound(record, k)
    ensures 1 <= record.state.fence <= record.generation <= U64_MAX
  {
  }

  // A row moved along its life passes the encoder's validation.

  lemma NewRecordSound(record: Record, k: Key)
    requires record.generation == 1 && record.state.Running? && record.state.fence == 1
    requires 0 <= record.lastSeen < record.state.expiresAt && record.binding.identity == k
    ensures k.provider == record.binding.change.provider && (record.keep.Some? ==> record.keep.value >= 0) ==>
      RecordSound(record, k)
  {
  }

  lemma RunningStaysSound(record: Record, k: Key, now: int, state: State)
    requires RecordSound(record, k) && record.lastSeen <= now
    requires state.Running? && 1 <= state.fence <= record.generation + 1 && now < state.expiresAt
    ensures record.generation < U64_MAX ==>
      RecordSound(Moved(record, now, state), k)
  {
  }

  lemma StagingStaysSound(record: Record, k: Key, now: int, fence: nat, publication: Publication)
    requires RecordSound(record, k) && record.lastSeen <= now && fence == record.state.fence
    requires Bound(record, publication.verdict) && StoreDefect(publication).None?
    ensures record.generation < U64_MAX && publication.verdict.wellFormed ==>
      RecordSound(Moved(record, now, Staged(fence, StoredOf(publication))), k)
  {
  }

  lemma CompletingStaysSound(record: Record, k: Key, digest: Digest)
    requires RecordSound(record, k)
    ensures record.generation < U64_MAX ==>
      RecordSound(Moved(record, record.lastSeen, Done(record.state.fence, digest)), k)
  {
  }

  lemma DefectKinds(publication: Publication)
    ensures StoreDefect(publication) in {None, Some(Corrupt), Some(ReportTooLarge)}
  {
  }

  lemma RenewalMoves(record: Record, now: int, renewed: int, file: Option<Text>)
    requires record.state.Running? && now < record.state.expiresAt <= renewed
    ensures
      var next := Moved(record, now, Running(record.state.owner, record.state.fence, renewed));
      StateMove(record, next) && ReportSound(next, file)
  {
  }

  lemma ReclaimMoves(record: Record, now: int, state: State, file: Option<Text>)
    requires Reclaimable(record, now) && state.Running? && state.fence == record.state.fence + 1
    ensures StateMove(record, Moved(record, now, state)) && ReportSound(Moved(record, now, state), file)
  {
  }

  lemma StagingMoves(record: Record, now: int, publication: Publication)
    requires record.state.Running? && now < record.state.expiresAt && StoreDefect(publication).None?
    ensures
      var next := Moved(record, now, Staged(record.state.fence, StoredOf(publication)));
      StateMove(record, next) && ReportSound(next, publication.report)
  {
  }

  /** Why the second half of a first claim fails. */
  ghost predicate NewFails(
    cfg: Config, d: Disk, owner: Text, delivery: AcceptedDelivery, check: Text, reading: int, nonce: Option<Text>,
    writes: nat, error: LedgerError, d': Disk)
  {
    match error
    case Clock => reading < 0 || (d'.clock == Max(d.clock, reading) && d'.clock + cfg.leaseMillis > I64_MAX)
    case Random => nonce.None?
    case Full => true
    case Corrupt =>
      d'.clock == Max(d.clock, reading) && ClaimCorrupt(cfg, d, owner, delivery, check, nonce, d'.clock)
    case Io => writes < Tick(d.clock, reading) + SettleCost(d.capacity) + 3
    case _ => false
  }

  lemma SameAnswer(
    owner: Text, delivery: AcceptedDelivery, check: Text, d: Disk, out: Outcome, mid: Disk, d': Disk)
    requires ClaimAnswer(owner, delivery, check, d, out, mid) && out.Execute?
    requires d'.clock == mid.clock && Row(d', delivery.Key()) == Row(mid, delivery.Key())
    ensures ClaimAnswer(owner, delivery, check, d, out, d')
  {
    hide KeepEnded;
  }

  lemma IoIsAnAnswer(owner: Text, delivery: AcceptedDelivery, check: Text, d: Disk, d': Disk)
    ensures ClaimAnswer(owner, delivery, check, d, Failed(Io), d')
    ensures ClaimAnswer(owner, delivery, check, d, Failed(Clock), d')
  {
  }

  /** What makes a first claim corrupt does not depend on the stored clock. */
  lemma ClaimCorruptEarlier(
    cfg: Config, mid: Disk, d: Disk, owner: Text, delivery: AcceptedDelivery, check: Text, nonce: Option<Text>,
    now: int)
    requires mid == d.(clock := mid.clock)
    ensures ClaimCorrupt(cfg, mid, owner, delivery, check, nonce, now)
       <==> ClaimCorrupt(cfg, d, owner, delivery, check, nonce, now)
  {
  }

  lemma StagedReadsBack(cfg: Config, d: Disk, k: Key)
    requires DiskValid(cfg, d) && k in d.records && d.records[k].state.Staged?
    ensures
      var stored := d.records[k].state.publication;
      ReportMatches(stored, ReportOf(stored, ReportFile(d, k)))
      && (stored.gateCommit.Some? ==>
            StoredOf(Materialize(stored, ReportOf(stored, ReportFile(d, k)))) == stored)
  {
    assert RowSound(d, k);
  }

  lemma StagedIsBound(cfg: Config, d: Disk, k: Key)
    requires DiskValid(cfg, d) && k in d.records
    ensures d.records[k].state.Staged? ==> Bound(d.records[k], d.records[k].state.publication.verdict)
  {
    assert RowSound(d, k);
  }

  /** Removing a row's report afterwards moves nothing else. */
  lemma OnlyRowThenReport(d: Disk, mid: Disk, d': Disk, key: Key)
    requires OnlyRow(d, mid, key) && d' == mid.(reports := d'.reports)
    requires d'.reports == mid.reports || d'.reports == mid.reports - {key}
    ensures OnlyRow(d, d', key) && Row(d', key) == Row(mid, key)
  {
    hide RowNext;
  }

  lemma CleanupBegins(capacity: Capacity, files: set<Key>, expired: set<Key>)
    requires Exact(capacity, files) && expired <= files && expired != {}
    ensures BeginCleanup(capacity).Ok? && BeginCleanup(capacity).value.cleanupPending
    ensures BeginCleanup(capacity).value.maxRecords == capacity.maxRecords
    ensures Counts(BeginCleanup(capacity).value, files)
  {
    var k :| k in expired;
    assert |files| > 0 by { assert k in files; }
  }

  lemma CleanupFinishes(capacity: Capacity, files: set<Key>, expired: set<Key>)
    requires Exact(capacity, files) && expired <= files && expired != {}
    ensures BeginCleanup(capacity).Ok?
    ensures
      var finished := FinishCleanup(BeginCleanup(capacity).value, |files - expired|);
      && finished.Ok? && finished.value.maxRecords == capacity.maxRecords
      && Exact(finished.value, files - expired) && Counts(finished.value, files - expired)
  {
    CleanupBegins(capacity, files, expired);
  }

  lemma CleanupFails(d: Disk, d': Disk, error: LedgerError)
    requires d'.records == d.records && d.clock <= d'.clock
    ensures Step(d, Op.Cleanup, Failed(error), d')
  {
    hide DiskNext;
    assert d.records - {} == d.records;
    RemovalsAreNext(d, d', {});
  }

  lemma CleanupEnds(d: Disk, out: Outcome, d': Disk, gone: set<Key>)
    requires d.clock <= d'.clock && d'.records == d.records - gone
    requires forall k :: k in gone ==> k in d.records && Removable(d.records[k], d'.clock)
    requires d'.reports == d.reports - DeadReports(d.records, d.reports)
    requires out.Cleaned? ==>
      gone == RemovableKeys(d.records, d'.clock) && out.removed == |gone| && Exact(d'.capacity, d'.records.Keys)
    requires out.Cleaned? || out.Failed?
    ensures Step(d, Op.Cleanup, out, d')
  {
    hide DiskNext, Removable, RemovableKeys, DeadReports, Exact, DropsRemovable, DropsDeadReports;
    RemovalsAreNext(d, d', gone);
    if out.Cleaned? { CleanedMeans(d, out, d', gone); }
  }

  lemma CleanedMeans(d: Disk, out: Outcome, d': Disk, gone: set<Key>)
    requires out == Cleaned(|gone|) && Exact(d'.capacity, d'.records.Keys)
    requires gone == RemovableKeys(d.records, d'.clock) && d'.records == d.records - gone
    requires d'.reports == d.reports - DeadReports(d.records, d.reports)
    ensures CleanupAnswer(d, out, d')
  {
    hide RemovableKeys, DeadReports, DropsRemovable, DropsDeadReports, Exact;
    OnlyRemovable(d, d', gone);
    RemovedCount(d.records, gone);
    OnlyDead(d, d');
  }

  lemma OnlyRemovable(d: Disk, d': Disk, gone: set<Key>)
    requires gone == RemovableKeys(d.records, d'.clock) && d'.records == d.records - gone
    ensures DropsRemovable(d, d') && gone <= d.records.Keys
  {
    hide Removable;
  }

  lemma OnlyDead(d: Disk, d': Disk)
    requires d'.reports == d.reports - DeadReports(d.records, d.reports)
    ensures DropsDeadReports(d, d')
  {
    hide ReportLive;
  }

  lemma RemovedCount(records: map<Key, Record>, gone: set<Key>)
    requires gone <= records.Keys
    ensures |records - gone| == |records| - |gone|
  {
    assert (records - gone).Keys == records.Keys - gone;
    assert |records| == |records.Keys| && |records - gone| == |(records - gone).Keys|;
  }

  lemma MaximumIsConfigured(cfg: Config, d: Disk)
    requires DiskValid(cfg, d)
    ensures d.capacity.maxRecords == cfg.maxRecords
  {
  }

  lemma ExactMeans(capacity: Capacity, records: map<Key, Record>)
    requires Exact(capacity, records.Keys)
    ensures capacity.pending.None? && |records| <= capacity.maxRecords
  {
    assert |records| == |records.Keys|;
  }

  lemma RoomBefore(cfg: Config, d: Disk, d': Disk, k: Key, record: Record)
    requires DiskValid(cfg, d) && DiskValid(cfg, d') && k !in d.records && d'.records == d.records[k := record]
    requires Exact(d'.capacity, d'.records.Keys)
    ensures |d.records| < d.capacity.maxRecords
  {
    hide Exact, DiskValid;
    ExactMeans(d'.capacity, d'.records);
    MaximumIsConfigured(cfg, d);
    MaximumIsConfigured(cfg, d');
    assert d'.records.Keys == d.records.Keys + {k};
    assert |d.records| == |d.records.Keys| && |d'.records| == |d'.records.Keys|;
  }

  lemma ExactCounts(capacity: Capacity, files: set<Key>)
    requires Exact(capacity, files)
    ensures Counts(capacity, files)
  {
  }

  lemma CleanupBlocksReserve(capacity: Capacity, k: Key)
    ensures capacity.cleanupPending ==> Reserve(capacity, k) == Err(Corrupt)
  {
  }

  lemma ReserveMarks(capacity: Capacity, k: Key)
    requires Reserve(capacity, k).Ok?
    ensures Reserve(capacity, k).value.pending == Some(k)
    ensures Reserve(capacity, k).value.maxRecords == capacity.maxRecords
  {
  }

  lemma SettleKeepsMaximum(capacity: Capacity)
    ensures Settle(capacity, true).Ok? ==> Settle(capacity, true).value.maxRecords == capacity.maxRecords
  {
  }
}

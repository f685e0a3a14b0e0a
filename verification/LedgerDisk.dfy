/** The ledger root on disk, what keeps it sound, and what one call may do to it. */
module LedgerDisk {
  import opened Machine
  import opened Bytes
  import opened LedgerModel

  /** Record files, report files, the admission counter and the clock high-water mark. */
  datatype Disk = Disk(
    records: map<Key, Record>,
    reports: map<Key, Text>,
    capacity: Capacity,
    clock: int)

  function Row(d: Disk, k: Key): Option<Record>
  {
    if k in d.records then Some(d.records[k]) else None
  }

  function ReportFile(d: Disk, k: Key): Option<Text>
  {
    if k in d.reports then Some(d.reports[k]) else None
  }

  /** The report a staged publication reads back. */
  function ReportOf(stored: StoredPublication, file: Option<Text>): Option<Text>
  {
    if stored.report.None? then None else file
  }

  /** A staged row can always be materialized. */
  ghost predicate ReportSound(record: Record, file: Option<Text>)
  {
    record.state.Staged? ==>
      var stored := record.state.publication;
      && ReportMatches(stored, ReportOf(stored, file))
      && (stored.verdict.artifact.Some? ==>
            file.Some? && stored.verdict.artifact.value == OfBytes(file.value))
  }

  ghost predicate RowSound(d: Disk, k: Key)
    requires k in d.records
  {
    && RecordSound(d.records[k], k)
    && d.records[k].lastSeen <= d.clock
    && ReportSound(d.records[k], ReportFile(d, k))
  }

  ghost predicate DiskValid(cfg: Config, d: Disk)
  {
    && cfg.Valid()
    && 0 <= d.clock
    && (forall k :: k in d.records ==> RowSound(d, k) && cfg.Fits(d.records[k]))
    && d.capacity.maxRecords == cfg.maxRecords
    && Counts(d.capacity, d.records.Keys)
  }

  // ----- Single durable writes -----

  lemma ClockWritten(cfg: Config, d: Disk, clock: int)
    requires DiskValid(cfg, d) && d.clock <= clock
    ensures DiskValid(cfg, d.(clock := clock))
  {
    hide RecordSound, ReportSound, Counts;
    var d' := d.(clock := clock);
    forall k | k in d'.records ensures RowSound(d', k) { assert RowSound(d, k); }
  }

  lemma CapacityWritten(cfg: Config, d: Disk, capacity: Capacity)
    requires DiskValid(cfg, d)
    requires Counts(capacity, d.records.Keys) && capacity.maxRecords == cfg.maxRecords
    ensures DiskValid(cfg, d.(capacity := capacity))
  {
    hide RecordSound, ReportSound, Counts;
    var d' := d.(capacity := capacity);
    forall k | k in d'.records ensures RowSound(d', k) { assert RowSound(d, k); }
  }

  /** Report files may change freely while no staged row reads them. */
  lemma ReportWritten(cfg: Config, d: Disk, k: Key, reports: map<Key, Text>)
    requires DiskValid(cfg, d)
    requires forall other :: other != k ==>
      (other in reports <==> other in d.reports) && (other in reports ==> reports[other] == d.reports[other])
    requires k in d.records ==> !d.records[k].state.Staged? || d.records[k].state.publication.report.None?
    ensures DiskValid(cfg, d.(reports := reports))
  {
    hide RecordSound, Counts;
    var d' := d.(reports := reports);
    forall other | other in d'.records ensures RowSound(d', other) {
      assert RowSound(d, other);
      if other == k && d.records[k].state.Staged? { NoArtifactWithoutReport(d.records[k], k); }
    }
  }

  lemma NoArtifactWithoutReport(record: Record, k: Key)
    requires RecordSound(record, k) && record.state.Staged? && record.state.publication.report.None?
    ensures record.state.publication.verdict.artifact.None?
  {
  }

  lemma RecordReplaced(cfg: Config, d: Disk, k: Key, record: Record)
    requires DiskValid(cfg, d) && k in d.records
    requires RecordSound(record, k) && cfg.Fits(record) && record.lastSeen <= d.clock
    requires ReportSound(record, ReportFile(d, k))
    ensures DiskValid(cfg, d.(records := d.records[k := record]))
  {
    hide RecordSound, ReportSound, Counts;
    var d' := d.(records := d.records[k := record]);
    assert d'.records.Keys == d.records.Keys;
    forall other | other in d'.records ensures RowSound(d', other) {
      if other != k { assert RowSound(d, other); }
    }
  }

  lemma RecordCreated(cfg: Config, d: Disk, k: Key, record: Record)
    requires DiskValid(cfg, d) && k !in d.records
    requires d.capacity.pending == Some(k)
    requires RecordSound(record, k) && cfg.Fits(record) && record.lastSeen <= d.clock && record.state.Running?
    ensures DiskValid(cfg, d.(records := d.records[k := record]))
  {
    hide RecordSound;
    var d' := d.(records := d.records[k := record]);
    assert d'.records.Keys == d.records.Keys + {k};
    assert d'.records.Keys + {k} == d.records.Keys + {k};
    forall other | other in d'.records ensures RowSound(d', other) {
      if other != k { assert RowSound(d, other); }
    }
  }

  lemma RecordRemoved(cfg: Config, d: Disk, k: Key)
    requires DiskValid(cfg, d) && k in d.records && d.capacity.cleanupPending
    ensures DiskValid(cfg, d.(records := d.records - {k}))
  {
    hide RecordSound, ReportSound;
    var d' := d.(records := d.records - {k});
    assert d'.records.Keys == d.records.Keys - {k};
    forall other | other in d'.records ensures RowSound(d', other) { assert RowSound(d, other); }
  }

  // ----- What one call may do to one row -----

  /** The same claimed work, seen again later. */
  ghost predicate SameWork(a: Record, b: Record)
  {
    && a.binding == b.binding && a.keep == b.keep && a.check == b.check
    && a.evaluation == b.evaluation
    && a.generation < b.generation && a.lastSeen <= b.lastSeen
  }

  ghost predicate StateMove(a: Record, b: Record)
  {
    match a.state
    case Running(owner, fence, expiresAt) =>
      (match b.state
       case Running(owner', fence', expiresAt') =>
         if fence' == fence then owner' == owner && expiresAt <= expiresAt' && b.lastSeen < expiresAt
         else fence' == fence + 1 && expiresAt <= b.lastSeen
       case Staged(fence', _) => fence' == fence && b.Frozen() && b.lastSeen < expiresAt
       case Done(_, _) => false)
    case Staged(fence, publication) =>
      if a.Frozen() then
        b.state == Done(fence, OfStaged(a.evaluation, fence, publication))
      else
        b.state.Running? && b.state.fence == fence + 1
    case Done(_, _) => false
  }

  /** Cleanup may take only completed rows whose replay end has passed. */
  predicate Removable(record: Record, now: int)
  {
    record.state.Done? && KeepEnded(record.keep, now)
  }

  /** Created unexpired, moved along its life, or removed after its replay end. */
  ghost predicate RowNext(k: Key, row: Option<Record>, row': Option<Record>, clock: int, clock': int)
  {
    match (row, row')
    case (None, None) => true
    case (None, Some(b)) =>
      && b.generation == 1 && b.state.Running? && b.state.fence == 1
      && b.evaluation.identity == k && !KeepEnded(b.keep, clock)
    case (Some(a), Some(b)) => b == a || (SameWork(a, b) && StateMove(a, b))
    case (Some(a), None) => Removable(a, clock')
  }

  ghost predicate DiskNext(d: Disk, d': Disk)
  {
    && d.clock <= d'.clock
    && forall k :: RowNext(k, Row(d, k), Row(d', k), d.clock, d'.clock)
  }

  /** At most the row of `key` moved. */
  ghost predicate OnlyRow(d: Disk, d': Disk, key: Key)
  {
    && d.clock <= d'.clock
    && (forall k :: k != key ==> Row(d', k) == Row(d, k) && ReportFile(d', k) == ReportFile(d, k))
    && RowNext(key, Row(d, key), Row(d', key), d.clock, d'.clock)
  }

  /** Some writes that left every record alone, then some that moved at most one. */
  lemma OnlyRowAfter(d: Disk, mid: Disk, d': Disk, key: Key)
    requires d.clock <= mid.clock && mid.records == d.records
    requires forall k :: k != key ==> ReportFile(mid, k) == ReportFile(d, k)
    requires OnlyRow(mid, d', key)
    ensures OnlyRow(d, d', key)
  {
    hide ReportFile, SameWork, StateMove;
    assert Row(mid, key) == Row(d, key);
    forall k | k != key ensures Row(d', k) == Row(d, k) && ReportFile(d', k) == ReportFile(d, k) {
      assert Row(mid, k) == Row(d, k);
      assert Row(d', k) == Row(mid, k) && ReportFile(d', k) == ReportFile(mid, k);
    }
  }

  lemma RecordsKept(d: Disk, d': Disk, key: Key)
    requires d.clock <= d'.clock && d'.records == d.records
    requires forall k :: k != key ==> ReportFile(d', k) == ReportFile(d, k)
    ensures OnlyRow(d, d', key) && Row(d', key) == Row(d, key)
  {
    hide ReportFile;
  }

  lemma RecordMoved(d: Disk, d': Disk, key: Key, record: Record)
    requires d.clock <= d'.clock && d'.records == d.records[key := record]
    requires forall k :: k != key ==> ReportFile(d', k) == ReportFile(d, k)
    requires RowNext(key, Row(d, key), Some(record), d.clock, d'.clock)
    ensures OnlyRow(d, d', key) && Row(d', key) == Some(record)
  {
    hide ReportFile, SameWork, StateMove;
  }

  lemma OnlyRowIsNext(d: Disk, d': Disk, key: Key)
    requires OnlyRow(d, d', key)
    ensures DiskNext(d, d')
  {
    hide Row, ReportFile, SameWork, StateMove;
    forall k ensures RowNext(k, Row(d, k), Row(d', k), d.clock, d'.clock) {
      if k != key { assert Row(d', k) == Row(d, k); }
    }
  }

  lemma RemovalsAreNext(d: Disk, d': Disk, gone: set<Key>)
    requires d.clock <= d'.clock && d'.records == d.records - gone
    requires forall k :: k in gone ==> k in d.records && Removable(d.records[k], d'.clock)
    ensures DiskNext(d, d')
  {
  }

  // ----- What each call may answer -----

  datatype Outcome =
    | Execute(lease: DeliveryLease)
    | Publish(staged: StagedPublication)
    | Busy(evaluation: EvaluationId, retryAt: int)
    | Duplicate(evaluation: EvaluationId)
    | BindingConflict
    | Renewed(lease: DeliveryLease)
    | Froze(staged: StagedPublication)
    | Completed
    | Lost
    | Cleaned(removed: nat)
    | Failed(error: LedgerError)

  datatype Op =
    | Claim(owner: Text, delivery: AcceptedDelivery, check: Text)
    | Renew(owner: Text, delivery: AcceptedDelivery, lease: DeliveryLease)
    | Stage(owner: Text, delivery: AcceptedDelivery, lease: DeliveryLease, publication: Publication)
    | Complete(delivery: AcceptedDelivery, staged: StagedPublication)
    | Cleanup

  /** The row is claimed for exactly this lease by this owner and not yet expired. */
  ghost predicate HoldsLease(
    row: Option<Record>, owner: Text, delivery: AcceptedDelivery, lease: DeliveryLease, now: int)
  {
    && row.Some? && row.value.Matches(delivery, lease.check)
    && row.value.state.Running? && row.value.state.owner == owner
    && LeaseOf(row.value) == lease && now < lease.expiresAt
  }

  ghost predicate ClaimAnswer(owner: Text, delivery: AcceptedDelivery, check: Text, d: Disk, out: Outcome, d': Disk)
  {
    var row, row' := Row(d, delivery.Key()), Row(d', delivery.Key());
    match out
    case Execute(lease) =>
      && row'.Some? && row'.value.Matches(delivery, check)
      && row'.value.state.Running? && row'.value.state.owner == owner
      && lease == LeaseOf(row'.value) && d'.clock < lease.expiresAt
      && (row.None? ==> !KeepEnded(delivery.KeepUntil(), d.clock) && |d.records| < d.capacity.maxRecords)
      && (row.Some? ==> row.value.Matches(delivery, check) && !row.value.Frozen() && !row.value.state.Done?)
      && if row.None? then lease.fence == 1
         else if row.value.state.Running? && d'.clock < row.value.state.expiresAt then
           row' == row && row.value.state.owner == owner
         else lease.fence == row.value.state.fence + 1
    case Publish(staged) =>
      && row.Some? && row' == row && row.value.Matches(delivery, check) && row.value.Frozen()
      && staged.evaluation == row.value.evaluation && staged.fence == row.value.state.fence
      && StoredOf(staged.publication) == row.value.state.publication
    case Busy(evaluation, retryAt) =>
      && row.Some? && row' == row && row.value.Matches(delivery, check) && row.value.state.Running?
      && row.value.state.owner != owner && evaluation == row.value.evaluation
      && d'.clock < retryAt == row.value.state.expiresAt
    case Duplicate(evaluation) =>
      && row.Some? && row' == row && row.value.Matches(delivery, check)
      && row.value.state.Done? && evaluation == row.value.evaluation
    case BindingConflict =>
      row.Some? && row' == row && !row.value.Matches(delivery, check)
    case Failed(error) =>
      && (error == Expired ==> row.None? && row'.None? && KeepEnded(delivery.KeepUntil(), d'.clock))
      && (error == Full ==> row.None? && |d.records| == d.capacity.maxRecords)
    case _ => false
  }

  ghost predicate RenewAnswer(
    owner: Text, delivery: AcceptedDelivery, lease: DeliveryLease, d: Disk, out: Outcome, d': Disk)
  {
    var row, row' := Row(d, delivery.Key()), Row(d', delivery.Key());
    match out
    case Renewed(renewed) =>
      && HoldsLease(row, owner, delivery, lease, d'.clock)
      && HoldsLease(row', owner, delivery, renewed, d'.clock)
      && renewed.(expiresAt := lease.expiresAt) == lease && lease.expiresAt <= renewed.expiresAt
    case Lost => row' == row && !HoldsLease(row, owner, delivery, lease, d'.clock)
    case Failed(_) => row' == row
    case _ => false
  }

  ghost predicate StageAnswer(
    owner: Text, delivery: AcceptedDelivery, lease: DeliveryLease, publication: Publication,
    d: Disk, out: Outcome, d': Disk)
  {
    var row, row' := Row(d, delivery.Key()), Row(d', delivery.Key());
    match out
    case Froze(staged) =>
      && staged == StagedPublication(lease.evaluation, lease.fence, publication)
      && row.Some? && row'.Some? && row'.value.Matches(delivery, lease.check)
      && row'.value.evaluation == lease.evaluation
      && row'.value.state == Staged(lease.fence, StoredOf(publication))
      && ((HoldsLease(row, owner, delivery, lease, d'.clock) && Bound(row.value, publication.verdict)) || row' == row)
    case Lost =>
      && row' == row
      && (HoldsLease(row, owner, delivery, lease, d'.clock) ==> !Bound(row.value, publication.verdict))
      && (row.Some? && row.value.Matches(delivery, lease.check) && row.value.evaluation == lease.evaluation ==>
            row.value.state != Staged(lease.fence, StoredOf(publication)))
    case Failed(_) => row' == row
    case _ => false
  }

  ghost predicate CompleteAnswer(
    delivery: AcceptedDelivery, staged: StagedPublication, d: Disk, out: Outcome, d': Disk)
  {
    var row, row' := Row(d, delivery.Key()), Row(d', delivery.Key());
    var stored := StoredOf(staged.publication);
    var final := Done(staged.fence, OfStaged(staged.evaluation, staged.fence, stored));
    match out
    case Completed =>
      && StoreDefect(staged.publication).None?
      && row.Some? && row.value.Matches(delivery, staged.publication.verdict.check)
      && row.value.evaluation == staged.evaluation
      && (row.value.state == Staged(staged.fence, stored) || row.value.state == final)
      && row'.Some? && row'.value.state == final
    case Lost =>
      && row' == row
      && (row.Some? && row.value.Matches(delivery, staged.publication.verdict.check)
          && row.value.evaluation == staged.evaluation && StoreDefect(staged.publication).None? ==>
            row.value.state != Staged(staged.fence, stored) && row.value.state != final)
    case Failed(_) => true
    case _ => false
  }

  /** A staged publication still reads this report. */
  predicate ReportLive(records: map<Key, Record>, k: Key)
  {
    k in records && records[k].state.Staged? && records[k].state.publication.report.Some?
  }

  function RemovableKeys(records: map<Key, Record>, now: int): set<Key>
  {
    set k | k in records && Removable(records[k], now)
  }

  function DeadReports(records: map<Key, Record>, reports: map<Key, Text>): set<Key>
  {
    set k | k in reports && !ReportLive(records, k)
  }

  /** Exactly the removable rows are gone; the others are untouched. */
  ghost predicate DropsRemovable(d: Disk, d': Disk)
  {
    && (forall k :: k in d'.records ==> k in d.records && d'.records[k] == d.records[k])
    && (forall k :: k in d.records ==> (k !in d'.records <==> Removable(d.records[k], d'.clock)))
  }

  /** Exactly the reports no staged row reads are gone; the others are untouched. */
  ghost predicate DropsDeadReports(d: Disk, d': Disk)
  {
    && (forall k :: k in d'.reports ==> k in d.reports && d'.reports[k] == d.reports[k])
    && (forall k :: k in d.reports ==> (k in d'.reports <==> ReportLive(d.records, k)))
  }

  ghost predicate CleanupAnswer(d: Disk, out: Outcome, d': Disk)
  {
    match out
    case Cleaned(removed) =>
      && Exact(d'.capacity, d'.records.Keys)
      && DropsRemovable(d, d') && DropsDeadReports(d, d')
      && removed == |d.records| - |d'.records|
    case Failed(_) => true
    case _ => false
  }

  /** One ledger call by any owner, completed or cut off by a failed write. */
  ghost predicate Step(d: Disk, op: Op, out: Outcome, d': Disk)
  {
    && DiskNext(d, d')
    && match op
       case Claim(owner, delivery, check) => ClaimAnswer(owner, delivery, check, d, out, d')
       case Renew(owner, delivery, lease) => RenewAnswer(owner, delivery, lease, d, out, d')
       case Stage(owner, delivery, lease, publication) =>
         StageAnswer(owner, delivery, lease, publication, d, out, d')
       case Complete(delivery, staged) => CompleteAnswer(delivery, staged, d, out, d')
       case Cleanup => CleanupAnswer(d, out, d')
  }
}

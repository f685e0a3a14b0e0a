/**
 * What the delivery ledger stores (controller/src/file_ledger/format.rs and
 * store/capacity.rs). Digests are free terms, one constructor per hash domain:
 * two digests are equal exactly when the hashed values are.
 */
module LedgerModel {
  import opened Machine
  import opened Bytes

  const MACHINE_JSON_BYTES: nat := 268_435_456
  const MAX_RECORD_BYTES: nat := 131_072

  datatype LedgerError =
    Configuration | Full | Expired | Clock | Random | ReportTooLarge | Corrupt | Io

  datatype Provider = Provider(namespace: Text, instance: Text)

  datatype DeliveryId = Assigned(id: Text) | ExactBody(body: Text)

  datatype DeliveryIdentity = DeliveryIdentity(
    provider: Provider, integration: Text, delivery: DeliveryId)

  /** Record and report files are named after the hash of this identity. */
  type Key = DeliveryIdentity

  datatype Change = Change(provider: Provider, repository: Text, number: nat)

  datatype ProviderRun = ProviderRun(id: Text, objectFormat: nat, candidate: Text)

  datatype AuthenticatedDelivery = AuthenticatedDelivery(
    identity: DeliveryIdentity, change: Change, providerRun: ProviderRun)

  datatype ReplayWindow = ReplayWindow(maxSignedAge: nat, maxQueueAge: nat)

  datatype ReplayKeep = Permanent | KeepThrough(unixMillis: int, window: ReplayWindow)

  datatype AcceptedDelivery = AcceptedDelivery(delivery: AuthenticatedDelivery, keep: ReplayKeep)
  {
    function Key(): Key { delivery.identity }

    /** The inclusive replay end a bounded record stores. */
    function KeepUntil(): Option<int>
    {
      match keep
      case Permanent => None
      case KeepThrough(unixMillis, _) => Some(unixMillis)
    }
  }

  predicate KeepEnded(keep: Option<int>, now: int)
  {
    keep.Some? && now > keep.value
  }

  datatype EvaluationId = EvaluationId(identity: DeliveryIdentity, nonce: Text)

  datatype Digest =
    | OfReport(report: Text)
    | OfBytes(bytes: Text)
    | OfStaged(evaluation: EvaluationId, fence: nat, publication: StoredPublication)

  /** Everything a publication states besides its report bytes and gate commit. */
  datatype Verdict = Verdict(
    providerRun: ProviderRun,
    evaluation: EvaluationId,
    check: Text,
    change: Change,
    objectFormat: nat,
    candidate: Text,
    conclusion: Text,
    artifact: Option<Digest>,
    wellFormed: bool)

  datatype Publication = Publication(verdict: Verdict, gateCommit: Text, report: Option<Text>)

  datatype ReportRef = ReportRef(digest: Digest, length: nat)
  {
    predicate Names(bytes: Text) { digest == OfReport(bytes) && length == |bytes| }
  }

  /** `gateCommit` is absent only in rows written by earlier releases. */
  datatype StoredPublication = StoredPublication(
    verdict: Verdict, gateCommit: Option<Text>, report: Option<ReportRef>)

  /** Why a publication cannot be stored, if so. */
  function StoreDefect(publication: Publication): Option<LedgerError>
  {
    var artifact, report := publication.verdict.artifact, publication.report;
    if artifact.Some? && (report.None? || artifact.value != OfBytes(report.value)) then Some(Corrupt)
    else if report.Some? && |report.value| > MACHINE_JSON_BYTES then Some(ReportTooLarge)
    else None
  }

  function StoredOf(publication: Publication): StoredPublication
  {
    StoredPublication(
      publication.verdict,
      Some(publication.gateCommit),
      if publication.report.None? then None
      else Some(ReportRef(OfReport(publication.report.value), |publication.report.value|)))
  }

  lemma StoredHasGate(publication: Publication)
    ensures StoredOf(publication).gateCommit.Some?
  {
  }

  /** The publication a stored one stands for, given the report file it names. */
  function Materialize(stored: StoredPublication, report: Option<Text>): Publication
    requires stored.gateCommit.Some?
  {
    Publication(stored.verdict, stored.gateCommit.value, report)
  }

  ghost predicate ReportMatches(stored: StoredPublication, report: Option<Text>)
  {
    if stored.report.None? then report.None?
    else report.Some? && stored.report.value.Names(report.value)
  }

  /** Storing and materializing lose nothing: the two forms determine each other. */
  lemma StoredRoundTrip(publication: Publication, stored: StoredPublication, report: Option<Text>)
    ensures ReportMatches(StoredOf(publication), publication.report)
    ensures Materialize(StoredOf(publication), publication.report) == publication
    ensures ReportMatches(stored, report) && stored.gateCommit.Some? ==>
      (Materialize(stored, report) == publication <==> StoredOf(publication) == stored)
  {
  }

  datatype State =
    | Running(owner: Text, fence: nat, expiresAt: int)
    | Staged(fence: nat, publication: StoredPublication)
    | Done(fence: nat, digest: Digest)

  datatype Record = Record(
    generation: nat,
    lastSeen: int,
    binding: AuthenticatedDelivery,
    keep: Option<int>,
    check: Text,
    evaluation: EvaluationId,
    state: State)
  {
    predicate Matches(delivery: AcceptedDelivery, check: Text)
    {
      binding == delivery.delivery && keep == delivery.KeepUntil() && this.check == check
    }

    /** A frozen publication of the current release. */
    predicate Frozen() { state.Staged? && state.publication.gateCommit.Some? }

    function Advance(now: int, state: State): Result<Record, LedgerError>
    {
      if generation >= U64_MAX then Err(Corrupt)
      else Ok(this.(generation := generation + 1, lastSeen := now, state := state))
    }
  }

  /** The publication states what its record was claimed for. */
  predicate Bound(record: Record, verdict: Verdict)
  {
    && verdict.evaluation == record.evaluation
    && verdict.providerRun == record.binding.providerRun
    && verdict.change == record.binding.change
    && verdict.objectFormat == record.binding.providerRun.objectFormat
    && verdict.candidate == record.binding.providerRun.candidate
    && verdict.check == record.check
  }

  /** `Record::validate` and the file-name check. */
  predicate RecordSound(record: Record, key: Key)
  {
    && record.binding.identity == key
    && record.binding.identity.provider == record.binding.change.provider
    && 1 <= record.generation <= U64_MAX
    && 0 <= record.lastSeen
    && (record.keep.Some? ==> record.keep.value >= 0)
    && 1 <= record.state.fence <= record.generation
    && match record.state
       case Running(_, _, expiresAt) => record.lastSeen < expiresAt
       case Staged(_, publication) =>
         && Bound(record, publication.verdict) && publication.verdict.wellFormed
         && (publication.report.Some? ==> publication.report.value.length <= MACHINE_JSON_BYTES)
         && (publication.verdict.artifact.Some? ==>
               publication.report.Some? && publication.gateCommit.Some?)
       case Done(_, _) => true
  }

  datatype DeliveryLease = DeliveryLease(
    evaluation: EvaluationId, check: Text, fence: nat, expiresAt: int)

  function LeaseOf(record: Record): DeliveryLease
    requires record.state.Running?
  {
    DeliveryLease(record.evaluation, record.check, record.state.fence, record.state.expiresAt)
  }

  datatype StagedPublication = StagedPublication(
    evaluation: EvaluationId, fence: nat, publication: Publication)

  /** `encodedBytes` is the size of a record's file. */
  datatype Config = Config(leaseMillis: nat, maxRecords: nat, window: ReplayWindow, encodedBytes: Record -> nat)
  {
    predicate Fits(record: Record) { encodedBytes(record) <= MAX_RECORD_BYTES }

    ghost predicate Valid() { 1 <= leaseMillis <= I64_MAX && 1 <= maxRecords <= U64_MAX }
  }

  // ----- The admission counter -----

  datatype Capacity = Capacity(
    maxRecords: nat, records: nat, pending: Option<Key>, cleanupPending: bool)

  function Reserve(capacity: Capacity, key: Key): Result<Capacity, LedgerError>
  {
    if capacity.pending.Some? || capacity.cleanupPending then Err(Corrupt)
    else if capacity.records >= capacity.maxRecords then Err(Full)
    else Ok(capacity.(records := capacity.records + 1, pending := Some(key)))
  }

  function Settle(capacity: Capacity, present: bool): Result<Capacity, LedgerError>
  {
    if capacity.pending.None? || capacity.cleanupPending then Err(Corrupt)
    else if !present && capacity.records == 0 then Err(Corrupt)
    else
      var records := if present then capacity.records else capacity.records - 1;
      if records > capacity.maxRecords then Err(Corrupt)
      else Ok(capacity.(records := records, pending := None))
  }

  function BeginCleanup(capacity: Capacity): Result<Capacity, LedgerError>
  {
    if capacity.pending.Some? || capacity.cleanupPending || capacity.records == 0 then Err(Corrupt)
    else Ok(capacity.(cleanupPending := true))
  }

  function FinishCleanup(capacity: Capacity, records: nat): Result<Capacity, LedgerError>
  {
    if !capacity.cleanupPending || capacity.pending.Some? || records > capacity.records then Err(Corrupt)
    else Ok(capacity.(records := records, cleanupPending := false))
  }

  /** What a full read of the root does to a counter some crash left behind. */
  function Reconcile(capacity: Capacity, files: set<Key>): Result<Capacity, LedgerError>
  {
    var settled :- match capacity.pending
      case Some(key) => Settle(capacity, key in files)
      case None => Ok(capacity);
    if settled.cleanupPending then FinishCleanup(settled, |files|)
    else if settled.records == |files| then Ok(settled)
    else Err(Corrupt)
  }

  /** What the counter means beside the record files that are really there. */
  ghost predicate Counts(capacity: Capacity, files: set<Key>)
  {
    && capacity.records <= capacity.maxRecords
    && (capacity.cleanupPending ==>
          capacity.pending.None? && |files| <= capacity.records && capacity.records > 0)
    && (!capacity.cleanupPending ==>
          capacity.records == |if capacity.pending.Some? then files + {capacity.pending.value} else files|)
  }

  ghost predicate Exact(capacity: Capacity, files: set<Key>)
  {
    && capacity.pending.None? && !capacity.cleanupPending
    && capacity.records == |files| <= capacity.maxRecords
  }

  /**
   * Whatever was cut off, counting the files present again always succeeds and
   * leaves a counter that is exact.
   */
  lemma ReconcileIsExact(capacity: Capacity, files: set<Key>)
    requires Counts(capacity, files)
    ensures Reconcile(capacity, files).Ok?
    ensures Exact(Reconcile(capacity, files).value, files)
    ensures Reconcile(capacity, files).value.maxRecords == capacity.maxRecords
  {
    if capacity.pending.Some? { AddedOne(files, capacity.pending.value); }
  }

  lemma AddedOne(files: set<Key>, key: Key)
    ensures |files + {key}| == if key in files then |files| else |files| + 1
  {
    if key in files { assert files + {key} == files; }
  }

  /** Settling the pending admission alone is exact too, unless a cleanup was cut off. */
  lemma SettleIsExact(capacity: Capacity, files: set<Key>)
    requires Counts(capacity, files) && capacity.pending.Some?
    ensures Settle(capacity, capacity.pending.value in files).Ok?
    ensures Exact(Settle(capacity, capacity.pending.value in files).value, files)
  {
    AddedOne(files, capacity.pending.value);
  }

  /** The three admission writes, each of which leaves the counter meaningful. */
  lemma AdmissionCounts(capacity: Capacity, files: set<Key>, key: Key)
    requires Exact(capacity, files) && key !in files
    ensures Reserve(capacity, key).Ok? <==> |files| < capacity.maxRecords
    ensures Reserve(capacity, key).Err? ==> Reserve(capacity, key).error == Full
    ensures Reserve(capacity, key).Ok? ==>
      var reserved := Reserve(capacity, key).value;
      && Counts(reserved, files) && Counts(reserved, files + {key})
      && Settle(reserved, true).Ok? && Exact(Settle(reserved, true).value, files + {key})
  {
    AddedOne(files, key);
    assert files + {key} + {key} == files + {key};
  }
}

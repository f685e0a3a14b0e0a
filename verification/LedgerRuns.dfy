/** Whole runs of the ledger: any owners, any clock readings, any cut-off writes. */
module LedgerRuns {
  import opened Machine
  import opened Bytes
  import opened LedgerModel
  import opened LedgerDisk

  datatype Event = Event(op: Op, out: Outcome)

  /** One call as `FileLedger` and `LedgerRoot` prove it. */
  ghost predicate Call(cfg: Config, d: Disk, e: Event, d': Disk)
  {
    DiskValid(cfg, d) && DiskValid(cfg, d') && Step(d, e.op, e.out, d')
  }

  ghost predicate Run(cfg: Config, disks: seq<Disk>, events: seq<Event>)
  {
    && |disks| == |events| + 1
    && forall i :: 0 <= i < |events| ==> Call(cfg, disks[i], events[i], disks[i + 1])
  }

  // ----- The row of one accepted delivery -----

  /** The row holds this very delivery, whichever check it was claimed for. */
  predicate Of(record: Record, delivery: AcceptedDelivery)
  {
    record.binding == delivery.delivery && record.keep == delivery.KeepUntil()
  }

  function Mine(d: Disk, delivery: AcceptedDelivery): Option<Record>
  {
    var row := Row(d, delivery.Key());
    if row.Some? && Of(row.value, delivery) then row else None
  }

  ghost predicate Passed(d: Disk, delivery: AcceptedDelivery)
  {
    KeepEnded(delivery.KeepUntil(), d.clock)
  }

  /** Everything later about a row that was once `a`. */
  ghost predicate Descends(a: Record, b: Record)
  {
    && a.binding == b.binding && a.keep == b.keep && a.check == b.check && a.evaluation == b.evaluation
    && a.generation <= b.generation && a.lastSeen <= b.lastSeen && a.state.fence <= b.state.fence
    && (a.generation == b.generation ==> b == a)
    && (b.state.Staged? && !b.Frozen() ==> b == a)
    && (a.Frozen() ==>
          || b.state == a.state
          || b.state == Done(a.state.fence, OfStaged(a.evaluation, a.state.fence, a.state.publication)))
    && (a.state.Done? ==> b == a)
    && (a.state.Running? && b.state.Running? ==> LeaseOrder(a, b))
  }

  /** The same holder renewed, or a later fence taken after the earlier lease ended. */
  ghost predicate LeaseOrder(a: Record, b: Record)
    requires a.state.Running? && b.state.Running?
  {
    if a.state.fence == b.state.fence
    then a.state.owner == b.state.owner && a.state.expiresAt <= b.state.expiresAt
    else a.state.expiresAt <= b.lastSeen
  }

  lemma MoveDescends(a: Record, b: Record)
    requires b == a || (SameWork(a, b) && StateMove(a, b))
    ensures Descends(a, b)
  {
  }

  lemma DescendsTransitive(a: Record, b: Record, c: Record)
    requires Descends(a, b) && Descends(b, c)
    ensures Descends(a, c)
  {
  }

  /** A row once seen is still that row grown older, or it is gone for good. */
  ghost predicate Follows(a: Record, d: Disk, delivery: AcceptedDelivery)
  {
    var mine := Mine(d, delivery);
    if mine.Some? then Descends(a, mine.value) else Passed(d, delivery)
  }

  lemma CallFollows(cfg: Config, a: Record, d: Disk, e: Event, d': Disk, delivery: AcceptedDelivery)
    requires Call(cfg, d, e, d') && Follows(a, d, delivery)
    ensures Follows(a, d', delivery)
  {
    hide DiskValid, SameWork, StateMove, Descends, ClaimAnswer, RenewAnswer, StageAnswer, CompleteAnswer,
      CleanupAnswer;
    var k := delivery.Key();
    assert RowNext(k, Row(d, k), Row(d', k), d.clock, d'.clock);
    var mine, mine' := Mine(d, delivery), Mine(d', delivery);
    if mine.Some? && Row(d', k).Some? {
      MoveDescends(Row(d, k).value, Row(d', k).value);
      SameDelivery(Row(d, k).value, Row(d', k).value);
      DescendsTransitive(a, mine.value, mine'.value);
    } else if mine.None? && Row(d, k).Some? && Row(d', k).Some? {
      MoveDescends(Row(d, k).value, Row(d', k).value);
      SameDelivery(Row(d, k).value, Row(d', k).value);
    }
  }

  lemma SameDelivery(a: Record, b: Record)
    requires Descends(a, b)
    ensures a.binding == b.binding && a.keep == b.keep
  {
  }

  /** While a row stays it only grows older; once removed, the same delivery never has one again. */
  lemma {:induction false} RowGrowsOrIsGone(
    cfg: Config, disks: seq<Disk>, events: seq<Event>, i: nat, j: nat, delivery: AcceptedDelivery)
    requires Run(cfg, disks, events) && i <= j < |disks| && Mine(disks[i], delivery).Some?
    ensures Follows(Mine(disks[i], delivery).value, disks[j], delivery)
    decreases j - i
  {
    hide Call;
    if i < j {
      RowGrowsOrIsGone(cfg, disks, events, i, j - 1, delivery);
      CallFollows(cfg, Mine(disks[i], delivery).value, disks[j - 1], events[j - 1], disks[j], delivery);
    }
  }

  // ----- What a call says about the row it was about -----

  ghost predicate Grants(e: Event, owner: Text, delivery: AcceptedDelivery, lease: DeliveryLease)
  {
    match e.op
    case Claim(who, about, _) => who == owner && about == delivery && e.out == Execute(lease)
    case Renew(who, about, _) => who == owner && about == delivery && e.out == Renewed(lease)
    case _ => false
  }

  /** The row is running under exactly this lease. */
  ghost predicate Held(row: Option<Record>, owner: Text, lease: DeliveryLease)
  {
    row.Some? && row.value.state.Running? && row.value.state.owner == owner && LeaseOf(row.value) == lease
  }

  lemma GrantMeans(
    cfg: Config, d: Disk, e: Event, d': Disk, owner: Text, delivery: AcceptedDelivery, lease: DeliveryLease)
    requires Call(cfg, d, e, d') && Grants(e, owner, delivery, lease)
    ensures Held(Mine(d', delivery), owner, lease) && d'.clock < lease.expiresAt
    ensures Mine(d', delivery).value.lastSeen <= d'.clock
  {
    hide DiskNext, RecordSound, ReportSound, Counts;
    assert RowSound(d', delivery.Key());
  }

  // ----- When the fence advances -----

  /**
   * An executing claim of a running row advances its fence exactly when the trusted
   * clock has reached the row's expiry; before that it hands the row's own owner the
   * lease that already stands.
   */
  lemma FenceAdvancesIffExpired(cfg: Config, d: Disk, e: Event, d': Disk)
    requires Call(cfg, d, e, d') && e.op.Claim? && e.out.Execute?
    ensures
      var row := Row(d, e.op.delivery.Key());
      && (row.Some? && row.value.state.Running? ==>
            && (e.out.lease.fence == row.value.state.fence + 1 <==> row.value.state.expiresAt <= d'.clock)
            && (d'.clock < row.value.state.expiresAt ==>
                  && e.out.lease == LeaseOf(row.value) && row.value.state.owner == e.op.owner
                  && Row(d', e.op.delivery.Key()) == row))
      && (row.Some? && !row.value.state.Running? ==> e.out.lease.fence == row.value.state.fence + 1)
      && (row.None? ==> e.out.lease.fence == 1)
  {
    hide DiskValid, DiskNext;
  }

  /** The call uses a lease to hold on to the row or to freeze its publication. */
  ghost predicate Uses(e: Event, delivery: AcceptedDelivery, lease: DeliveryLease)
  {
    match e.op
    case Renew(_, about, used) => about == delivery && used == lease && e.out.Renewed?
    case Stage(_, about, used, _) => about == delivery && used == lease && e.out.Froze?
    case _ => false
  }

  lemma UseMeans(cfg: Config, d: Disk, e: Event, d': Disk, delivery: AcceptedDelivery, lease: DeliveryLease)
    requires Call(cfg, d, e, d') && Uses(e, delivery, lease)
    ensures Mine(d, delivery).Some?
    ensures
      || (Held(Mine(d, delivery), e.op.owner, lease) && d'.clock < lease.expiresAt)
      || (e.op.Stage? && Mine(d, delivery).value.state == Staged(lease.fence, StoredOf(e.op.publication)))
  {
    hide DiskNext, DiskValid, StoredOf;
  }

  /**
   * Fencing. After a later grant of a different lease, the earlier lease never
   * renews, and stages only as a repeat of the publication already frozen. When
   * the later grant went to another owner, it came after the trusted clock had
   * reached the end of the earlier lease, and not even the repeat is accepted.
   */
  lemma SupersededLeaseIsLost(
    cfg: Config, disks: seq<Disk>, events: seq<Event>, i: nat, m: nat, j: nat,
    owner: Text, other: Text, delivery: AcceptedDelivery, lease: DeliveryLease, newer: DeliveryLease)
    requires Run(cfg, disks, events) && i < m < j < |events| && newer != lease
    requires Grants(events[i], owner, delivery, lease) && Grants(events[m], other, delivery, newer)
    ensures Uses(events[j], delivery, lease) ==>
      && events[j].op.Stage? && Mine(disks[j], delivery).Some?
      && Mine(disks[j], delivery).value.state == Staged(lease.fence, StoredOf(events[j].op.publication))
    ensures owner != other ==>
      lease.fence < newer.fence && lease.expiresAt <= disks[m + 1].clock && !Uses(events[j], delivery, lease)
  {
    hide Call, StoredOf;
    assert Call(cfg, disks[i], events[i], disks[i + 1]);
    assert Call(cfg, disks[m], events[m], disks[m + 1]);
    GrantMeans(cfg, disks[i], events[i], disks[i + 1], owner, delivery, lease);
    GrantMeans(cfg, disks[m], events[m], disks[m + 1], other, delivery, newer);
    RowGrowsOrIsGone(cfg, disks, events, i + 1, m + 1, delivery);
    if Uses(events[j], delivery, lease) {
      assert Call(cfg, disks[j], events[j], disks[j + 1]);
      UseMeans(cfg, disks[j], events[j], disks[j + 1], delivery, lease);
      RowGrowsOrIsGone(cfg, disks, events, m + 1, j, delivery);
    }
  }

  // ----- A frozen publication -----

  /** The only publication a call may hand out, freeze again or complete. */
  ghost predicate SpeaksOf(e: Event, delivery: AcceptedDelivery, staged: StagedPublication)
  {
    match e.op
    case Claim(_, about, _) => about == delivery && e.out == Publish(staged)
    case Stage(_, about, _, _) => about == delivery && e.out == Froze(staged)
    case Complete(about, value) => about == delivery && value == staged && e.out == Completed
    case _ => false
  }

  function FinalOf(staged: StagedPublication): State
  {
    Done(staged.fence, OfStaged(staged.evaluation, staged.fence, StoredOf(staged.publication)))
  }

  /** The row is frozen to, or completed with, exactly this publication. */
  ghost predicate Fixed(row: Option<Record>, staged: StagedPublication)
  {
    && row.Some? && row.value.evaluation == staged.evaluation
    && (row.value.state == Staged(staged.fence, StoredOf(staged.publication)) || row.value.state == FinalOf(staged))
  }

  lemma SpeakingFixes(cfg: Config, d: Disk, e: Event, d': Disk, delivery: AcceptedDelivery, staged: StagedPublication)
    requires Call(cfg, d, e, d') && SpeaksOf(e, delivery, staged)
    ensures Fixed(Mine(d', delivery), staged)
    ensures !e.op.Stage? ==> Fixed(Mine(d, delivery), staged)
  {
    hide DiskValid, DiskNext, StoredOf;
    var k := delivery.Key();
    if e.op.Complete? {
      assert RowNext(k, Row(d, k), Row(d', k), d.clock, d'.clock) by { NextAt(d, d', k); }
    }
  }

  /**
   * Whatever a run freezes, publishes or completes names the delivery's own run, change,
   * candidate and check, and the evaluation its row was claimed for.
   */
  lemma PublicationNamesItsDelivery(
    cfg: Config, disks: seq<Disk>, events: seq<Event>, i: nat, delivery: AcceptedDelivery, staged: StagedPublication)
    requires Run(cfg, disks, events) && i < |events| && SpeaksOf(events[i], delivery, staged)
    requires events[i].out == Completed ==>
      Mine(disks[i], delivery).Some? && Mine(disks[i], delivery).value.state.Staged?
    ensures
      var verdict, run := staged.publication.verdict, delivery.delivery.providerRun;
      && verdict.change == delivery.delivery.change && verdict.providerRun == run
      && verdict.objectFormat == run.objectFormat && verdict.candidate == run.candidate
      && verdict.evaluation == staged.evaluation
      && match events[i].op
         case Claim(_, _, check) => verdict.check == check
         case Stage(_, _, lease, _) => verdict.check == lease.check && verdict.evaluation == lease.evaluation
         case _ => true
  {
    hide DiskNext, ReportSound, Counts;
    assert Call(cfg, disks[i], events[i], disks[i + 1]);
    var k := delivery.Key();
    assert k in disks[i].records ==> RowSound(disks[i], k);
    assert k in disks[i + 1].records ==> RowSound(disks[i + 1], k);
  }

  lemma NextAt(d: Disk, d': Disk, k: Key)
    requires DiskNext(d, d')
    ensures RowNext(k, Row(d, k), Row(d', k), d.clock, d'.clock)
  {
  }

  lemma FixedIsUnique(row: Option<Record>, a: StagedPublication, b: StagedPublication)
    requires Fixed(row, a) && Fixed(row, b)
    ensures a == b
  {
  }

  lemma FixedDescends(a: Record, b: Record, staged: StagedPublication)
    requires Fixed(Some(a), staged) && Descends(a, b)
    ensures Fixed(Some(b), staged)
  {
    hide StoredOf;
    assert StoredOf(staged.publication).gateCommit.Some? by { StoredHasGate(staged.publication); }
  }

  /**
   * A publication once staged, published or completed for a delivery is the only
   * one ever staged, published or completed for it, by any owner, and nothing
   * executes the delivery again.
   */
  lemma OnePublicationPerDelivery(
    cfg: Config, disks: seq<Disk>, events: seq<Event>, i: nat, j: nat,
    delivery: AcceptedDelivery, staged: StagedPublication)
    requires Run(cfg, disks, events) && i < j < |events| && SpeaksOf(events[i], delivery, staged)
    ensures forall later :: SpeaksOf(events[j], delivery, later) ==> later == staged
    ensures forall owner, lease :: !Grants(events[j], owner, delivery, lease)
    ensures events[j].op.Claim? && events[j].op.delivery == delivery ==> !events[j].out.Busy?
    ensures Mine(disks[j], delivery).Some? ==> Fixed(Mine(disks[j], delivery), staged)
  {
    hide Call, SpeaksOf, Grants, Fixed, Descends;
    assert Call(cfg, disks[i], events[i], disks[i + 1]);
    SpeakingFixes(cfg, disks[i], events[i], disks[i + 1], delivery, staged);
    FixedIsPresent(Mine(disks[i + 1], delivery), staged);
    StillFixed(cfg, disks, events, i, j, delivery, staged);
    StillFixed(cfg, disks, events, i, j + 1, delivery, staged);
    assert Call(cfg, disks[j], events[j], disks[j + 1]);
    forall later | SpeaksOf(events[j], delivery, later) ensures later == staged {
      SpeakingFixes(cfg, disks[j], events[j], disks[j + 1], delivery, later);
      FixedIsPresent(Mine(disks[j + 1], delivery), later);
      FixedIsUnique(Mine(disks[j + 1], delivery), staged, later);
    }
    forall owner, lease ensures !Grants(events[j], owner, delivery, lease) {
      if Grants(events[j], owner, delivery, lease) {
        GrantMeans(cfg, disks[j], events[j], disks[j + 1], owner, delivery, lease);
        FixedIsNotRunning(Mine(disks[j + 1], delivery), staged);
      }
    }
    if events[j].op.Claim? && events[j].op.delivery == delivery && events[j].out.Busy? {
      BusyMeansRunning(cfg, disks[j], events[j], disks[j + 1]);
      FixedIsNotRunning(Mine(disks[j], delivery), staged);
      assert false;
    }
  }

  lemma BusyMeansRunning(cfg: Config, d: Disk, e: Event, d': Disk)
    requires Call(cfg, d, e, d') && e.op.Claim? && e.out.Busy?
    ensures Mine(d, e.op.delivery).Some? && Mine(d, e.op.delivery).value.state.Running?
  {
    hide DiskValid, DiskNext;
  }

  lemma FixedIsPresent(row: Option<Record>, staged: StagedPublication)
    requires Fixed(row, staged)
    ensures row.Some?
  {
  }

  lemma FixedIsNotRunning(row: Option<Record>, staged: StagedPublication)
    requires Fixed(row, staged)
    ensures row.Some? && !row.value.state.Running?
  {
  }

  lemma StillFixed(
    cfg: Config, disks: seq<Disk>, events: seq<Event>, i: nat, j: nat,
    delivery: AcceptedDelivery, staged: StagedPublication)
    requires Run(cfg, disks, events) && i < j < |disks| && Fixed(Mine(disks[i + 1], delivery), staged)
    ensures Mine(disks[j], delivery).Some? ==> Fixed(Mine(disks[j], delivery), staged)
  {
    hide Run, Mine, Descends, Fixed;
    FixedIsPresent(Mine(disks[i + 1], delivery), staged);
    RowGrowsOrIsGone(cfg, disks, events, i + 1, j, delivery);
    if Mine(disks[j], delivery).Some? {
      FixedDescends(Mine(disks[i + 1], delivery).value, Mine(disks[j], delivery).value, staged);
    }
  }

  // ----- A completed delivery -----

  lemma CompletedIsFinal(cfg: Config, d: Disk, e: Event, d': Disk, delivery: AcceptedDelivery)
    requires Call(cfg, d, e, d') && e.op.Complete? && e.op.delivery == delivery && e.out == Completed
    ensures Mine(d', delivery).Some? && Mine(d', delivery).value.state.Done?
    ensures Mine(d', delivery).value.check == e.op.staged.publication.verdict.check
  {
    hide DiskValid, DiskNext, StoredOf;
    NextAt(d, d', delivery.Key());
  }

  lemma DoneStays(a: Record, d: Disk, delivery: AcceptedDelivery)
    requires Follows(a, d, delivery) && a.state.Done?
    ensures Mine(d, delivery).Some? ==> Mine(d, delivery).value == a
    ensures Mine(d, delivery).None? ==> Passed(d, delivery)
  {
  }

  /** What a claim may still be told once the delivery is done. */
  lemma ClaimOfDone(cfg: Config, d: Disk, e: Event, d': Disk, delivery: AcceptedDelivery, a: Record)
    requires Call(cfg, d, e, d') && e.op.Claim? && e.op.delivery == delivery
    requires Mine(d, delivery).Some? ==> Mine(d, delivery).value == a && a.state.Done?
    requires Mine(d, delivery).None? ==> Passed(d, delivery)
    ensures e.out.Duplicate? || e.out.BindingConflict? || e.out.Failed?
    ensures Mine(d, delivery).Some? && e.op.check == a.check && !e.out.Failed? ==> e.out == Duplicate(a.evaluation)
    ensures e.out == Failed(Expired) ==> Passed(d', delivery)
  {
    hide DiskValid, DiskNext;
  }

  /**
   * After a completion is acknowledged, no claim of that delivery executes or
   * publishes again, ever. As long as the trusted clock has not passed the end of
   * its replay window the marker is still there, and a claim that does not fail
   * is told it is a duplicate of the same evaluation.
   */
  lemma CompletedNeverRunsAgain(
    cfg: Config, disks: seq<Disk>, events: seq<Event>, i: nat, j: nat, delivery: AcceptedDelivery)
    requires Run(cfg, disks, events) && i < j < |events|
    requires events[i].op.Complete? && events[i].op.delivery == delivery && events[i].out == Completed
    ensures Mine(disks[i + 1], delivery).Some?
    ensures !Passed(disks[j], delivery) ==> Mine(disks[j], delivery) == Mine(disks[i + 1], delivery)
    ensures
      var e := events[j];
      e.op.Claim? && e.op.delivery == delivery ==>
        && (e.out.Duplicate? || e.out.BindingConflict? || e.out.Failed?)
        && (!Passed(disks[j + 1], delivery) && e.op.check == Mine(disks[i + 1], delivery).value.check ==>
              e.out == Duplicate(Mine(disks[i + 1], delivery).value.evaluation)
              || (e.out.Failed? && e.out.error != Expired))
  {
    hide Call, Mine, Passed;
    assert Call(cfg, disks[i], events[i], disks[i + 1]);
    CompletedIsFinal(cfg, disks[i], events[i], disks[i + 1], delivery);
    RowGrowsOrIsGone(cfg, disks, events, i + 1, j, delivery);
    var a := Mine(disks[i + 1], delivery).value;
    DoneStays(a, disks[j], delivery);
    assert Call(cfg, disks[j], events[j], disks[j + 1]);
    if events[j].op.Claim? && events[j].op.delivery == delivery {
      ClaimOfDone(cfg, disks[j], events[j], disks[j + 1], delivery, a);
      PassedStays(cfg, disks[j], events[j], disks[j + 1], delivery);
    }
  }

  lemma DoneRefusesLeases(cfg: Config, d: Disk, e: Event, d': Disk, delivery: AcceptedDelivery)
    requires Call(cfg, d, e, d') && (e.op.Renew? || e.op.Stage?) && e.op.delivery == delivery
    requires Mine(d, delivery).Some? ==> Mine(d, delivery).value.state.Done?
    ensures e.out.Lost? || e.out.Failed?
  {
    hide DiskValid, StoredOf;
    NextAt(d, d', delivery.Key());
  }

  /** Done is absorbing: no lease is honoured again, and only the completed value completes again. */
  lemma CompletedIsAbsorbing(
    cfg: Config, disks: seq<Disk>, events: seq<Event>, i: nat, j: nat, delivery: AcceptedDelivery)
    requires Run(cfg, disks, events) && i < j < |events|
    requires events[i].op.Complete? && events[i].op.delivery == delivery && events[i].out == Completed
    ensures
      var e := events[j];
      && ((e.op.Renew? || e.op.Stage?) && e.op.delivery == delivery ==> e.out.Lost? || e.out.Failed?)
      && (e.op.Complete? && e.op.delivery == delivery && e.out == Completed ==> e.op.staged == events[i].op.staged)
  {
    hide Call, Mine, Passed, Grants, Fixed;
    assert Call(cfg, disks[i], events[i], disks[i + 1]);
    assert Call(cfg, disks[j], events[j], disks[j + 1]);
    CompletedIsFinal(cfg, disks[i], events[i], disks[i + 1], delivery);
    RowGrowsOrIsGone(cfg, disks, events, i + 1, j, delivery);
    DoneStays(Mine(disks[i + 1], delivery).value, disks[j], delivery);
    OnePublicationPerDelivery(cfg, disks, events, i, j, delivery, events[i].op.staged);
    if (events[j].op.Renew? || events[j].op.Stage?) && events[j].op.delivery == delivery {
      DoneRefusesLeases(cfg, disks[j], events[j], disks[j + 1], delivery);
    }
    if events[j].op.Complete? && events[j].op.delivery == delivery && events[j].out == Completed {
      assert SpeaksOf(events[j], delivery, events[j].op.staged);
    }
  }

  lemma PassedStays(cfg: Config, d: Disk, e: Event, d': Disk, delivery: AcceptedDelivery)
    requires Call(cfg, d, e, d')
    ensures Passed(d, delivery) ==> Passed(d', delivery)
  {
    hide DiskValid, ClaimAnswer, RenewAnswer, StageAnswer, CompleteAnswer, CleanupAnswer;
  }

  /** The root never holds more records than configured, whatever was cut off. */
  lemma RecordsWithinMaximum(cfg: Config, d: Disk)
    requires DiskValid(cfg, d)
    ensures |d.records| <= cfg.maxRecords
  {
    hide RowSound;
    assert |d.records| == |d.records.Keys|;
    if d.capacity.pending.Some? { AddedOne(d.records.Keys, d.capacity.pending.value); }
  }
}

/** Whole runs of an artifact store and its openings, under any clock readings and failed writes. */
module ArtifactRuns {
  import opened Machine
  import opened Bytes
  import opened Totals
  import opened Deliveries
  import opened ArtifactModel
  import opened ArtifactDisk
  import opened ArtifactProtocol

  datatype Event = Event(op: Op, reading: int, out: Outcome)

  /** One call as `FileArtifactStore` proves it. */
  ghost predicate Call(env: Env, config: Config, s: Snap, e: Event, s': Snap)
  {
    && SnapSound(env, config, s) && SnapSound(env, config, s')
    && if e.op.Open? then OpenStep(config, s, e.reading, e.op.second, e.out, s')
       else Step(env, config, s, e.reading, e.op, e.out, s')
  }

  ghost predicate Run(env: Env, config: Config, snaps: seq<Snap>, events: seq<Event>)
  {
    && |snaps| == |events| + 1 && SnapSound(env, config, snaps[0])
    && forall i :: 0 <= i < |events| ==> Call(env, config, snaps[i], events[i], snaps[i + 1])
  }

  /** The time a call runs under: the clock's reading, or the mark it fell behind. */
  function EffectiveTime(s: Snap, e: Event): int { Max(e.reading, s.clock) }

  /** No opening between the two states. */
  predicate OneOpening(events: seq<Event>, i: nat, j: nat)
  {
    forall k :: i <= k < j && k < |events| ==> !events[k].op.Open?
  }

  lemma CallLasts(env: Env, config: Config, s: Snap, e: Event, s': Snap)
    requires Call(env, config, s, e, s')
    ensures Lasts(s, s') && s.saved <= s'.saved <= s'.clock
    ensures s'.trusted ==> s'.clock == s'.saved
    ensures !e.op.Open? ==> Onward(config, s, s')
  {
    hide OneEach, Aged, RecordValid, Sizes, Total, Answer, Swept, Live;
  }

  // ----- The mark -----

  /** The saved mark never falls, through failed writes and openings alike. */
  lemma {:induction false} SavedMarkNeverFalls(
    env: Env, config: Config, snaps: seq<Snap>, events: seq<Event>, i: nat, j: nat)
    requires Run(env, config, snaps, events) && i <= j < |snaps|
    ensures snaps[i].saved <= snaps[j].saved
    decreases j - i
  {
    hide Call, SnapSound, Lasting;
    if i < j {
      SavedMarkNeverFalls(env, config, snaps, events, i, j - 1);
      CallLasts(env, config, snaps[j - 1], events[j - 1], snaps[j]);
    }
  }

  /** The mark in memory never falls between two openings. */
  lemma {:induction false} ClockNeverFalls(
    env: Env, config: Config, snaps: seq<Snap>, events: seq<Event>, i: nat, j: nat)
    requires Run(env, config, snaps, events) && i <= j < |snaps| && OneOpening(events, i, j)
    ensures snaps[i].clock <= snaps[j].clock
    decreases j - i
  {
    hide Call, SnapSound, Lasting;
    if i < j {
      ClockNeverFalls(env, config, snaps, events, i, j - 1);
      CallLasts(env, config, snaps[j - 1], events[j - 1], snaps[j]);
    }
  }

  /** No mark the store ever trusted is lost again, by whatever openings follow. */
  lemma TrustedMarkIsKept(env: Env, config: Config, snaps: seq<Snap>, events: seq<Event>, i: nat, j: nat)
    requires Run(env, config, snaps, events) && i <= j < |snaps| && snaps[i].trusted
    ensures snaps[i].clock <= snaps[j].saved <= snaps[j].clock
  {
    hide Call, OneEach, Aged, RecordValid, Sizes, Total;
    SavedMarkNeverFalls(env, config, snaps, events, i, j);
    SoundThroughout(env, config, snaps, events, i);
    SoundThroughout(env, config, snaps, events, j);
  }

  lemma SoundThroughout(env: Env, config: Config, snaps: seq<Snap>, events: seq<Event>, i: nat)
    requires Run(env, config, snaps, events) && i < |snaps|
    ensures SnapSound(env, config, snaps[i])
  {
    hide SnapSound, Step, OpenStep;
    if i > 0 { assert Call(env, config, snaps[i - 1], events[i - 1], snaps[i]); }
  }

  /**
   * An opening lowers the mark in memory if and only if its last save had failed
   * and the clock has fallen behind it: the first reading where nothing is expired
   * at the second, else the later of the two.
   */
  lemma OpeningLowersMarkIff(env: Env, config: Config, s: Snap, e: Event, s': Snap)
    requires Call(env, config, s, e, s') && e.out == Opened
    ensures e.op.Open?
    ensures
      var now := Max(e.op.second, Max(e.reading, s.saved));
      var read := if Live(s.metas, now) == s.metas then e.reading else Max(e.op.second, e.reading);
      s'.clock < s.clock <==> s.saved < s.clock && read < s.clock
  {
    hide OneEach, Aged, RecordValid, Sizes, Total, Swept, Live, Lasting;
  }

  /** Once a durable write has failed nothing succeeds and nothing changes until the next opening. */
  lemma {:induction false} PoisonIsPermanent(
    env: Env, config: Config, snaps: seq<Snap>, events: seq<Event>, i: nat, j: nat)
    requires Run(env, config, snaps, events) && i <= j < |snaps| && !snaps[i].trusted && OneOpening(events, i, j)
    ensures snaps[j] == snaps[i]
    ensures j < |events| && !events[j].op.Open? ==> events[j].out.Failed?
    decreases j - i
  {
    hide SnapSound, Answer, Swept;
    if i < j {
      PoisonIsPermanent(env, config, snaps, events, i, j - 1);
      assert Call(env, config, snaps[j - 1], events[j - 1], snaps[j]);
    }
    if j < |events| { assert Call(env, config, snaps[j], events[j], snaps[j + 1]); }
  }

  // ----- The entry ceiling -----

  function FailedOpenings(events: seq<Event>, i: nat, j: nat): nat
    requires i <= j <= |events|
  {
    if i == j then 0
    else FailedOpenings(events, i, j - 1) + if events[j - 1].op.Open? && events[j - 1].out.Failed? then 1 else 0
  }

  lemma CallEntries(env: Env, config: Config, s: Snap, e: Event, s': Snap, extra: nat)
    requires Call(env, config, s, e, s') && s.entries <= Ceiling(config) + extra
    ensures s'.entries <= Ceiling(config) + extra + if e.op.Open? && e.out.Failed? then 1 else 0
  {
    hide OneEach, Aged, RecordValid, Sizes, Total, Answer, Swept, Live, Lasting;
  }

  /** However calls are cut off, only openings that fail push a once trusted root past the ceiling. */
  lemma {:induction false} EntriesAreBounded(
    env: Env, config: Config, snaps: seq<Snap>, events: seq<Event>, i: nat, j: nat)
    requires Run(env, config, snaps, events) && i <= j <= |events| && snaps[i].trusted
    ensures snaps[j].entries <= Ceiling(config) + FailedOpenings(events, i, j)
    decreases j - i
  {
    hide Call, OneEach, Aged, RecordValid, Sizes, Total;
    if i < j {
      EntriesAreBounded(env, config, snaps, events, i, j - 1);
      CallEntries(env, config, snaps[j - 1], events[j - 1], snaps[j], FailedOpenings(events, i, j - 1));
    } else {
      SoundThroughout(env, config, snaps, events, i);
    }
  }

  /**
   * A root the store once trusted is found corrupt only after an opening that
   * failed in between: no call, cut off anywhere, makes the next opening refuse it.
   */
  lemma CorruptOnlyAfterFailedOpening(
    env: Env, config: Config, snaps: seq<Snap>, events: seq<Event>, i: nat, j: nat)
    requires Run(env, config, snaps, events) && i <= j < |events| && snaps[i].trusted
    requires events[j].op.Open? && events[j].out == Failed(Corrupt)
    ensures FailedOpenings(events, i, j) >= 1
  {
    hide OneEach, Aged, RecordValid, Sizes, Total, Lasting;
    EntriesAreBounded(env, config, snaps, events, i, j);
    assert Call(env, config, snaps[j], events[j], snaps[j + 1]);
  }

  // ----- Lifetimes -----

  /** The record an answer speaks of outlives the time of the call, if the call only looked. */
  lemma LookupsAreLive(env: Env, config: Config, s: Snap, e: Event, s': Snap)
    requires Call(env, config, s, e, s')
    ensures e.out.Found? && e.out.found.Some? ==> e.out.found.value.expiresAt > EffectiveTime(s, e)
    ensures e.out.Verified? ==> e.op.Verify? && e.op.reference.expiresAt > EffectiveTime(s, e)
    ensures e.out.Content? ==>
      e.op.Read? && e.op.id in s'.metas && s'.metas[e.op.id].expiresAt > EffectiveTime(s, e)
  {
    hide SnapSound, Live, Locator, Describes;
  }

  /**
   * A retained reference outlives the time of the call if and only if the
   * configured retention is at least one millisecond.
   */
  lemma RetainedIsLiveIffMillisecond(env: Env, config: Config, s: Snap, e: Event, s': Snap)
    requires Call(env, config, s, e, s') && e.out.Retained?
    ensures e.out.reference.expiresAt > EffectiveTime(s, e) <==> config.retention.Millis() >= 1
  {
    hide InputValid, ExpectedId, Locator, Sizes, Total, OneEach, Duration.Millis, Lasting;
    var id := ExpectedId(env, e.op.evaluation, e.op.input);
    assert RecordValid(env, config, s'.metas[id]);
    if id in Live(s.metas, EffectiveTime(s, e)) {
      assert s'.metas[id] == s.metas[id] && RecordValid(env, config, s.metas[id]);
    }
  }

  // ----- One retained record -----

  /** Still stored unchanged, or past its end by the saved mark. */
  ghost predicate Kept(s: Snap, record: Record)
  {
    (record.id in s.metas && s.metas[record.id] == record) || record.expiresAt <= s.saved
  }

  lemma CallKeeps(env: Env, config: Config, s: Snap, e: Event, s': Snap, record: Record)
    requires Call(env, config, s, e, s') && Kept(s, record)
    ensures Kept(s', record)
  {
    hide Call;
    CallLasts(env, config, s, e, s');
  }

  /** Nothing ahead of its end is ever lost, through poisoned stores and openings alike. */
  lemma {:induction false} RecordIsKept(
    env: Env, config: Config, snaps: seq<Snap>, events: seq<Event>, i: nat, j: nat, record: Record)
    requires Run(env, config, snaps, events) && i <= j < |snaps| && Kept(snaps[i], record)
    ensures Kept(snaps[j], record)
    decreases j - i
  {
    hide Call, Kept, SnapSound;
    if i < j {
      RecordIsKept(env, config, snaps, events, i, j - 1, record);
      CallKeeps(env, config, snaps[j - 1], events[j - 1], snaps[j], record);
    }
  }

  /** A kept record ahead of its end is live, and the only one of its evaluation. */
  lemma KeptIsLive(env: Env, config: Config, s: Snap, now: int, record: Record)
    requires SnapSound(env, config, s) && Kept(s, record) && s.clock <= now < record.expiresAt
    ensures record.id in Live(s.metas, now) && Live(s.metas, now)[record.id] == record
    ensures record.id in s.metas && s.metas[record.id] == record
    ensures forall id :: id in Live(s.metas, now) && Live(s.metas, now)[id].evaluation == record.evaluation ==>
      id == record.id
  {
    hide RecordValid, Sizes, Total;
  }

  lemma FoundAmongLive(env: Env, config: Config, s: Snap, e: Event, s': Snap)
    requires Call(env, config, s, e, s') && e.op.Find? && !e.out.Failed?
    ensures s'.metas == Live(s.metas, EffectiveTime(s, e))
    ensures Answer(env, config, s, EffectiveTime(s, e), e.op, e.out, s')
  {
    hide SnapSound, RetainAnswer, Answers, Rebound, Describes, Sizes, Total, Swept, Onward, Live, OpenStep;
  }

  lemma FindAnswerIs(env: Env, config: Config, s: Snap, now: int, op: Op, out: Outcome, s': Snap, record: Record)
    requires Answer(env, config, s, now, op, out, s') && op == Find(record.evaluation) && !out.Failed?
    requires record.id in s'.metas && s'.metas[record.id] == record
    requires forall id :: id in s'.metas && s'.metas[id].evaluation == record.evaluation ==> id == record.id
    ensures out == Found(Some(RefOf(config, record)))
  {
    hide RefOf, Describes, Sizes, Total, RetainAnswer, Rebound, Live;
  }

  lemma FindFindsKept(env: Env, config: Config, s: Snap, e: Event, s': Snap, record: Record)
    requires Call(env, config, s, e, s')
    requires e.op.Find? && e.op.evaluation == record.evaluation
    requires Kept(s, record) && EffectiveTime(s, e) < record.expiresAt
    ensures !e.out.Failed? ==> e.out == Found(Some(RefOf(config, record)))
  {
    hide RefOf, Answer, Live, SnapSound, Step, OpenStep, Kept;
    KeptIsLive(env, config, s, EffectiveTime(s, e), record);
    if !e.out.Failed? {
      FoundAmongLive(env, config, s, e, s');
      FindAnswerIs(env, config, s, EffectiveTime(s, e), e.op, e.out, s', record);
    }
  }

  lemma RetainReturnsKept(env: Env, config: Config, s: Snap, e: Event, s': Snap, record: Record)
    requires Call(env, config, s, e, s')
    requires e.op.Retain? && e.op.evaluation == record.evaluation
    requires Kept(s, record) && EffectiveTime(s, e) < record.expiresAt
    ensures e.out.Retained? ==> e.out.reference == RefOf(config, record)
  {
    hide RefOf, ExpectedId, RecordValid, Describes, Sizes, Total, OneEach, SnapSound, Rebound, Onward, OpenStep, Kept;
    KeptIsLive(env, config, s, EffectiveTime(s, e), record);
  }

  /** The call read the clock and no durable write failed under it. */
  predicate Attended(s: Snap, e: Event, s': Snap)
  {
    s.trusted && s'.trusted && 0 <= e.reading
  }

  lemma ValidLater(env: Env, config: Config, evaluation: Text, now: int, later: int, input: Input)
    requires NewRecord(env, config, evaluation, now, input).Ok?
    requires 0 <= later && later + config.retention.Millis() <= I64_MAX
    ensures NewRecord(env, config, evaluation, later, input).Ok?
  {
    hide InputValid, ExpectedId, Duration.Millis;
  }

  lemma RetainedAgain(env: Env, config: Config, s: Snap, e: Event, s': Snap, record: Record)
    requires Call(env, config, s, e, s') && e.op.Retain? && e.op.evaluation == record.evaluation
    requires Kept(s, record) && EffectiveTime(s, e) < record.expiresAt
    requires record.id == ExpectedId(env, e.op.evaluation, e.op.input)
    requires NewRecord(env, config, e.op.evaluation, EffectiveTime(s, e), e.op.input).Ok?
    ensures Attended(s, e, s') ==> e.out.Retained?
  {
    hide ExpectedId, NewRecord, RefOf, RecordValid, Describes, Sizes, Total, OneEach, SnapSound, RetainAnswer, Rebound,
      Onward, OpenStep, Kept, Live;
    KeptIsLive(env, config, s, EffectiveTime(s, e), record);
  }

  lemma SameContentIsNoConflict(env: Env, config: Config, s: Snap, e: Event, s': Snap, record: Record)
    requires Call(env, config, s, e, s')
    requires e.op.Retain? && e.op.evaluation == record.evaluation
    requires Kept(s, record) && EffectiveTime(s, e) < record.expiresAt
    requires record.id == ExpectedId(env, e.op.evaluation, e.op.input)
    ensures e.out != Failed(Conflict)
  {
    hide ExpectedId, RecordValid, Describes, Sizes, Total, OneEach, SnapSound, RetainAnswer, Swept, Live;
    KeptIsLive(env, config, s, EffectiveTime(s, e), record);
  }

  /**
   * What a later call may answer about a retained reference: finding its evaluation
   * finds it, retaining returns it, and the same content is never a conflict.
   */
  ghost predicate Stands(config: Config, s: Snap, first: Event, later: Event, s': Snap)
    requires first.op.Retain? && first.out.Retained?
  {
    var same := later.op == first.op;
    && (later.op.Find? && later.op.evaluation == first.op.evaluation && Attended(s, later, s') ==>
          later.out == Found(Some(first.out.reference)))
    && (later.op.Find? && later.op.evaluation == first.op.evaluation && !later.out.Failed? ==>
          later.out == Found(Some(first.out.reference)))
    && (later.op.Retain? && later.op.evaluation == first.op.evaluation && later.out.Retained? ==>
          later.out.reference == first.out.reference)
    && (same ==> later.out != Failed(Conflict))
    && (same && Attended(s, later, s') && EffectiveTime(s, later) + config.retention.Millis() <= I64_MAX ==>
          later.out == Retained(first.out.reference))
  }

  lemma FindIsAnswered(env: Env, config: Config, s: Snap, e: Event, s': Snap)
    requires Call(env, config, s, e, s') && e.op.Find? && Attended(s, e, s')
    ensures !e.out.Failed?
  {
    hide SnapSound, Answer, Swept, Onward, Live, OpenStep;
  }

  lemma KeptStands(
    env: Env, config: Config, s: Snap, first: Event, later: Event, s': Snap, record: Record, time: int)
    requires Call(env, config, s, later, s') && first.op.Retain? && first.out == Retained(RefOf(config, record))
    requires Kept(s, record) && 0 <= s.clock && EffectiveTime(s, later) < record.expiresAt
    requires record.evaluation == first.op.evaluation && record.id == ExpectedId(env, record.evaluation, first.op.input)
    requires NewRecord(env, config, record.evaluation, time, first.op.input).Ok?
    ensures Stands(config, s, first, later, s')
  {
    hide Call, RefOf, ExpectedId, Kept, NewRecord, Duration.Millis;
    if later.op.Find? && later.op.evaluation == record.evaluation {
      FindFindsKept(env, config, s, later, s', record);
      if Attended(s, later, s') { FindIsAnswered(env, config, s, later, s'); }
    }
    if later.op.Retain? && later.op.evaluation == record.evaluation {
      RetainReturnsKept(env, config, s, later, s', record);
    }
    if later.op == first.op {
      SameContentIsNoConflict(env, config, s, later, s', record);
      if EffectiveTime(s, later) + config.retention.Millis() <= I64_MAX {
        ValidLater(env, config, record.evaluation, time, EffectiveTime(s, later), first.op.input);
        RetainedAgain(env, config, s, later, s', record);
      }
    }
  }

  /** A retained reference stands, across any failures and openings, while its end lies ahead of the call's time. */
  lemma RetainedReferenceIsStable(
    env: Env, config: Config, snaps: seq<Snap>, events: seq<Event>, i: nat, j: nat)
    requires Run(env, config, snaps, events) && i < j < |events|
    requires events[i].op.Retain? && events[i].out.Retained?
    requires EffectiveTime(snaps[j], events[j]) < events[i].out.reference.expiresAt
    ensures Stands(config, snaps[j], events[i], events[j], snaps[j + 1])
  {
    hide Call, RefOf, ExpectedId, Kept, NewRecord, Stands, OneEach, Aged, RecordValid, Sizes, Total;
    assert Call(env, config, snaps[i], events[i], snaps[i + 1]);
    assert Call(env, config, snaps[j], events[j], snaps[j + 1]);
    var record := RetainedRecord(env, config, snaps[i], events[i], snaps[i + 1]);
    RecordIsKept(env, config, snaps, events, i + 1, j, record);
    SoundThroughout(env, config, snaps, events, j);
    KeptStands(
      env, config, snaps[j], events[i], events[j], snaps[j + 1], record, EffectiveTime(snaps[i], events[i]));
  }

  lemma RetainedRecord(env: Env, config: Config, s: Snap, e: Event, s': Snap) returns (record: Record)
    requires Call(env, config, s, e, s') && e.out.Retained?
    ensures e.op.Retain? && Kept(s', record) && e.out.reference == RefOf(config, record)
    ensures record.evaluation == e.op.evaluation && record.expiresAt == e.out.reference.expiresAt
    ensures record.id == ExpectedId(env, record.evaluation, e.op.input)
    ensures NewRecord(env, config, record.evaluation, EffectiveTime(s, e), e.op.input).Ok?
  {
    hide NewRecord, ExpectedId, Locator, Live, Sizes, Total, RecordValid;
    record := s'.metas[ExpectedId(env, e.op.evaluation, e.op.input)];
  }
}

/** The store driven through any requests. */
module ArtifactDriver {
  import opened Machine
  import opened Bytes
  import opened Totals
  import opened Deliveries
  import opened ArtifactModel
  import opened ArtifactDisk
  import opened ArtifactProtocol
  import opened ArtifactService
  import opened ArtifactRuns

  datatype Request =
    | Offer(evaluation: Text, bundle: Bundle)
    | Check(reference: Reference)
    | Look(evaluation: Text)
    | Fetch(id: Text, component: Component)
    | Sweep
    | Restart(second: int, budget: nat, crash: bool)

  /** The configurations the code opens, on their fields. */
  ghost predicate Openable(env: Env, config: Config)
  {
    && |config.baseUrl| <= 2_048 && !(Ascii("/") <= config.baseUrl[|config.baseUrl| - Min(1, |config.baseUrl|)..])
    && env.parses(config.baseUrl)
    && (0 < config.retention.secs || 0 < config.retention.nanos)
    && (config.retention.secs < 365 * 86_400 || (config.retention.secs == 365 * 86_400 && config.retention.nanos == 0))
    && 0 < config.maxRecords <= 100_000 && 0 < config.maxBytes <= 68_719_476_736
    && 0 < config.maxRecordBytes <= 1_073_741_824 && config.maxRecordBytes <= config.maxBytes
  }

  lemma OpenableMeans(env: Env, config: Config)
    ensures Openable(env, config) <==> ConfigValid(env, config)
  {
    hide Ascii;
    SlashIsAscii();
    var base := config.baseUrl;
    if base != [] { assert base[|base| - 1..] == [base[|base| - 1]]; } else { assert base[0..] == []; }
  }

  /**
   * Opens a root under a configuration: refused as such exactly when a limit, the
   * retention or the base is out of range, and nothing is touched then.
   */
  method OpenStore(env: Env, config: Config, disk: Disk, reading: int, second: int, budget: nat, crash: bool)
    returns (store: FileArtifactStore, r: Result<(), ArtifactError>)
    requires 0 <= disk.clock
    ensures fresh(store) && store.env == env && store.config == config
    ensures r == Err(Configuration) <==> !Openable(env, config)
    ensures r == Err(Configuration) ==> store.disk == disk && !store.trusted
    ensures r.Ok? ==> store.trusted && DiskSound(env, config, disk) && Entries(disk) <= Ceiling(config)
    ensures Openable(env, config) && DiskSound(env, config, disk) ==>
      && store.Valid()
      && OpenStep(
           config, Snap(false, disk.clock, disk.clock, Entries(disk), disk.metas), reading, second,
           if r.Ok? then Opened else Failed(r.error), store.View())
      && (0 <= reading && 0 <= second && Entries(disk) < budget && Entries(disk) <= Ceiling(config) ==> r.Ok?)
  {
    hide Openable, ConfigValid, DiskSound, OpenStep, Entries, Ceiling, AtRest, FileArtifactStore.Valid;
    OpenableMeans(env, config);
    store := new FileArtifactStore(env, config, disk);
    if !ConfigValid(env, config) { return store, Err(Configuration); }
    ghost var s := store.View();
    r := store.Reopen(reading, second, budget, crash);
    if DiskSound(env, config, disk) {
      OpenOutcome(config, s, reading, second, if r.Ok? then Opened else Failed(r.error), store.View());
    }
  }

  lemma OpenOutcome(config: Config, s: Snap, reading: int, second: int, out: Outcome, s': Snap)
    requires OpenStep(config, s, reading, second, out, s')
    ensures out == Opened ==> s.entries <= Ceiling(config)
    ensures out == Failed(Corrupt) ==> Ceiling(config) < s.entries
    ensures out == Failed(ArtifactError.Clock) ==> reading < 0 || second < 0
  {
    hide Lasting, Live;
  }

  /** A store between requests, every record of it made before its saved mark. */
  ghost predicate Ready(store: FileArtifactStore)
    reads store
  {
    store.Valid() && Aged(store.disk.clock, store.disk.metas)
  }

  /** What a call must show to be one event of a run. */
  lemma Counts(store: FileArtifactStore, s: Snap, e: Event)
    requires SnapSound(store.env, store.config, s) && store.Valid()
    requires if e.op.Open? then OpenStep(store.config, s, e.reading, e.op.second, e.out, store.View())
             else Step(store.env, store.config, s, e.reading, e.op, e.out, store.View())
    ensures Call(store.env, store.config, s, e, store.View()) && Ready(store)
  {
    hide DiskSound, Indexes, NoOrphans, ConfigValid, RecordValid, OneEach, Sizes, Total, Answer, Swept, Live, Lasting,
      Entries, Aged;
    assert Lasts(s, store.View());
    AgedLater(s, store.View());
    SoundView(store);
  }

  /** One request: one event, or none when the bundle itself is malformed. */
  method Serve(store: FileArtifactStore, request: Request, reading: int) returns (event: Option<Event>)
    requires Ready(store)
    modifies store
    ensures Ready(store)
    ensures event.None? ==> request.Offer? && store.View() == old(store.View())
    ensures event.Some? ==> Call(store.env, store.config, old(store.View()), event.value, store.View())
    ensures event.Some? ==> event.value.reading == reading
  {
    hide FileArtifactStore.Valid, FileArtifactStore.View, SnapSound, Step, OpenStep, Call, Aged, Unfit, RecordInput;
    ghost var s := store.View();
    SoundView(store);
    AgedView(store);
    match request {
      case Offer(evaluation, bundle) =>
        var input := RecordInput(store.env, bundle);
        var out := store.Retain(evaluation, bundle, reading);
        if input.Err? {
          SameView(store, s);
          return None;
        }
        event := Some(Event(Retain(evaluation, input.value), reading, out));
      case Check(reference) =>
        var out := store.Verify(reference, reading);
        event := Some(Event(Verify(reference), reading, out));
      case Look(evaluation) =>
        var out := store.Find(evaluation, reading);
        event := Some(Event(Find(evaluation), reading, out));
      case Fetch(id, component) =>
        var out := store.Read(id, component, reading);
        event := Some(Event(Op.Read(id, component), reading, out));
      case Sweep =>
        var out := store.Cleanup(reading);
        event := Some(Event(Op.Cleanup, reading, out));
      case Restart(second, budget, crash) =>
        ValidMeans(store);
        var r := store.Reopen(reading, second, budget, crash);
        event := Some(Event(Open(second), reading, if r.Ok? then Opened else Failed(r.error)));
    }
    Counts(store, s, event.value);
  }

  lemma ValidMeans(store: FileArtifactStore)
    requires store.Valid()
    ensures store.Sound() && ConfigValid(store.env, store.config) && 0 <= store.disk.clock
  {
    hide ConfigValid, Indexes, NoOrphans;
  }

  lemma AgedView(store: FileArtifactStore)
    requires Ready(store)
    ensures Aged(store.View().saved, store.View().metas)
  {
    hide FileArtifactStore.Valid;
  }

  lemma SameView(store: FileArtifactStore, s: Snap)
    requires store.View() == s && Aged(s.saved, s.metas)
    ensures Aged(store.disk.clock, store.disk.metas)
  {
  }

  /**
   * Whatever is asked of a store, in any order, with any clock readings, failed
   * writes and openings, is a run of the model.
   */
  method Drive(store: FileArtifactStore, requests: seq<(Request, int)>)
    returns (events: seq<Event>, ghost snaps: seq<Snap>)
    requires Ready(store)
    modifies store
    ensures Ready(store) && Run(store.env, store.config, snaps, events)
    ensures snaps[0] == old(store.View()) && snaps[|events|] == store.View()
  {
    hide Ready, FileArtifactStore.View, SnapSound, Call;
    events, snaps := [], [store.View()];
    SoundNow(store);
    for i := 0 to |requests|
      invariant Ready(store) && Run(store.env, store.config, snaps, events)
      invariant snaps[0] == old(store.View()) && snaps[|events|] == store.View()
    {
      var event := Serve(store, requests[i].0, requests[i].1);
      if event.Some? {
        events, snaps := events + [event.value], snaps + [store.View()];
      }
    }
  }

  lemma SoundNow(store: FileArtifactStore)
    requires Ready(store)
    ensures SnapSound(store.env, store.config, store.View())
  {
    hide FileArtifactStore.Valid, FileArtifactStore.View, SnapSound;
    SoundView(store);
  }

  // ----- Inputs on which a promise fails -----

  /** The largest capacities the code accepts, for any base the URL parser accepts. */
  function WideConfig(base: Text, retention: Duration, maxRecords: nat): Config
  {
    Config(base, retention, maxRecords, MAX_ARTIFACT_BYTES, MAX_ARTIFACT_RECORD_BYTES)
  }

  const NANOSECOND: Duration := Duration(0, 1)
  const SECOND: Duration := Duration(1, 0)

  function ReportOnly(report: Text): Bundle { Bundle(report, None, None, None, None, None, false) }

  function ReportInput(env: Env, report: Text): Input
  {
    Input(Blob(env.sha(report), |report|), None, None, None, None, false, None, None, None, None)
  }

  /** The record of a report retained at `now` under a retention of one nanosecond. */
  function Newborn(env: Env, evaluation: Text, report: Text, now: int): Record
  {
    Record(ExpectedId(env, evaluation, ReportInput(env, report)), evaluation, now, now, ReportInput(env, report))
  }

  lemma {:induction false} ReportTotal(input: Input, i: nat)
    requires 1 <= i <= |COMPONENTS|
    requires forall c :: c != Report ==> input.At(c).None?
    ensures BlobTotal(input, COMPONENTS[..i]) == input.report.length
  {
    if i > 1 {
      ReportTotal(input, i - 1);
      assert COMPONENTS[..i][..i - 1] == COMPONENTS[..i - 1];
      ListedOnce(i - 1);
    } else {
      assert COMPONENTS[..1][..0] == [];
    }
  }

  lemma NewbornIsAdmissible(env: Env, config: Config, evaluation: Text, report: Text, now: int, disk: Disk)
    requires config == WideConfig(config.baseUrl, NANOSECOND, 100) && 0 <= now <= I64_MAX && disk.metas == map[]
    requires 0 < |report| <= MACHINE_JSON_BYTES
    requires env.metadataBytes(Newborn(env, evaluation, report, now)) <= MAX_RECORD_METADATA_BYTES
    ensures RecordInput(env, ReportOnly(report)) == Ok(ReportInput(env, report))
    ensures
      NewRecord(env, config, evaluation, now, ReportInput(env, report)) == Ok(Newborn(env, evaluation, report, now))
    ensures Admissible(env, config, disk, Newborn(env, evaluation, report, now))
  {
    hide ExpectedId, BlobTotal;
    var record := Newborn(env, evaluation, report, now);
    ReportTotal(record.input, |COMPONENTS|);
    assert COMPONENTS[..|COMPONENTS|] == COMPONENTS;
    assert Sizes(env, disk.metas) == map[];
  }

  lemma EmptyRootIsSound(env: Env, config: Config)
    ensures DiskSound(env, config, Disk(0, map[], map[], 0))
  {
    assert Sizes(env, map[]) == map[];
  }

  /** A fresh store, opened at `now`. */
  method OpenEmpty(env: Env, config: Config, now: int) returns (store: FileArtifactStore)
    requires ConfigValid(env, config) && 0 <= now
    ensures fresh(store) && store.env == env && store.config == config && store.Valid() && store.trusted
    ensures store.disk.metas == map[] && store.clock == now && store.writes >= Entries(store.disk) + 6
  {
    hide DiskSound, OpenStep, ConfigValid, Lasting, AtRest, Ceiling;
    store := new FileArtifactStore(env, config, Disk(0, map[], map[], 0));
    EmptyRootIsSound(env, config);
    RoomyWhenEmpty(config);
    ghost var s := store.View();
    var reopened := store.Reopen(now, now, 10, false);
    CannotFail(config, s, now, reopened, store.View());
    OpenedEmpty(config, now, Opened, store.View());
  }

  lemma RoomyWhenEmpty(config: Config)
    ensures 2 <= Ceiling(config)
  {
  }

  lemma CannotFail(config: Config, s: Snap, now: int, r: Result<(), ArtifactError>, s': Snap)
    requires 0 <= now && r != Err(Corrupt) && r != Err(Io)
    requires OpenStep(config, s, now, now, if r.Ok? then Opened else Failed(r.error), s')
    requires r.Err? ==> r.error in {Clock, Corrupt, Io}
    ensures r.Ok?
  {
    hide Lasting, Live;
  }

  /**
   * One nanosecond is an accepted retention: for every report, evaluation and reading
   * a fresh store retains it and answers with a reference that is already past its end.
   */
  method AcceptedRetentionBornExpired(env: Env, base: Text, evaluation: Text, report: Text, now: int)
    returns (config: Config, out: Outcome)
    requires Routes(env, base) && 0 <= now <= I64_MAX && 0 < |report| <= MACHINE_JSON_BYTES
    requires env.metadataBytes(Newborn(env, evaluation, report, now)) <= MAX_RECORD_METADATA_BYTES
    ensures ConfigValid(env, config) && out.Retained? && out.reference.expiresAt <= now
  {
    hide DiskSound, Step, Admissible, RecordInput, NewRecord, Routes, ExpectedId, RefOf, Indexes, NoOrphans, Entries,
      Newborn, ReportInput;
    config := WideConfig(base, NANOSECOND, 100);
    var store := OpenEmpty(env, config, now);
    ghost var s := store.View();
    NewbornIsAdmissible(env, config, evaluation, report, now, store.disk);
    out := store.Retain(evaluation, ReportOnly(report), now);
    StaysEmpty(env, config, s, evaluation, report, now, out, store.View());
    if out.Failed? { NewbornIsAdmissible(env, config, evaluation, report, now, store.disk); }
    StoredIsValid(env, config, store.disk, ExpectedId(env, evaluation, ReportInput(env, report)));
    BornExpired(env, config, s, evaluation, report, now, out, store.View());
  }

  lemma StoredIsValid(env: Env, config: Config, disk: Disk, id: Text)
    requires DiskSound(env, config, disk)
    ensures id in disk.metas ==> RecordValid(env, config, disk.metas[id])
  {
    hide RecordValid, DiskSound;
    if id in disk.metas { FilesAreOwn(env, config, disk, id); }
  }

  /** Opening the empty root at `now` leaves it empty, with the mark at `now`. */
  lemma OpenedEmpty(config: Config, now: int, out: Outcome, s': Snap)
    requires 0 <= now && OpenStep(config, Snap(false, 0, 0, 2, map[]), now, now, out, s') && out == Opened
    ensures s'.trusted && s'.metas == map[] && s'.clock == now
  {
    assert Live(map[], now) == map[];
  }

  lemma StaysEmpty(
    env: Env, config: Config, s: Snap, evaluation: Text, report: Text, now: int, out: Outcome, s': Snap)
    requires s.trusted && s'.trusted && s.metas == map[] && s.clock == now
    requires Step(env, config, s, now, Retain(evaluation, ReportInput(env, report)), out, s')
    ensures out.Retained? || out.Failed?
    ensures out.Failed? ==> s'.metas == map[] && out != Failed(Conflict)
  {
    hide ExpectedId, Describes, Sizes, Total, ReportInput, Served, Onward, RetainAnswer;
    assert Live(map[], now) == map[];
  }

  lemma BornExpired(
    env: Env, config: Config, s: Snap, evaluation: Text, report: Text, now: int, out: Outcome, s': Snap)
    requires s.trusted && s'.trusted && s.metas == map[] && s.clock == now && out.Retained?
    requires Step(env, config, s, now, Retain(evaluation, ReportInput(env, report)), out, s')
    requires config.retention == NANOSECOND
    requires
      var id := ExpectedId(env, evaluation, ReportInput(env, report));
      id in s'.metas ==> RecordValid(env, config, s'.metas[id])
    ensures out.reference.expiresAt <= now
  {
    hide ExpectedId, Describes, Sizes, Total, ReportInput, Served, Onward, InputValid, NewRecord;
    assert Live(map[], now) == map[];
  }

  /**
   * On every tidy root whose records have not ended: a sweep whose save of the mark
   * fails poisons the store at the higher mark, and the next opening, under the clock
   * that made the saved one, starts from the lower one.
   */
  method MarkFallsAfterFailedSave(env: Env, config: Config, disk: Disk, id: Text)
    returns (store: FileArtifactStore, high: int, out: Outcome, reopened: Result<(), ArtifactError>)
    requires ConfigValid(env, config) && DiskSound(env, config, disk) && AtRest(disk, disk.clock) && id in disk.metas
    ensures out == Failed(Io) && reopened.Ok? && store.trusted && store.disk == disk
    ensures store.clock < high == disk.metas[id].expiresAt
  {
    hide DiskSound, ConfigValid, Step, OpenStep, Live, AtRest, Lasting, Entries, Ceiling, FileArtifactStore.Valid;
    SoundClock(env, config, disk);
    EndsAhead(disk, id);
    store := new FileArtifactStore(env, config, disk);
    reopened := store.Reopen(disk.clock, disk.clock, 0, false);
    out := store.Cleanup(disk.metas[id].expiresAt);
    high := store.clock;
    reopened := store.Reopen(disk.clock, disk.clock, 0, false);
  }

  lemma EndsAhead(disk: Disk, id: Text)
    requires AtRest(disk, disk.clock) && id in disk.metas
    ensures disk.temps == 0 && disk.clock < disk.metas[id].expiresAt
    ensures Live(disk.metas, disk.metas[id].expiresAt) != disk.metas
  {
    hide NoOrphans;
    assert id in Live(disk.metas, disk.clock);
    assert id !in Live(disk.metas, disk.metas[id].expiresAt);
  }

  function FullBlob(env: Env): Blob { Blob(env.sha([0]), 1) }

  /** A complete chain with semantic evidence: five payloads of one byte. */
  function FullInput(env: Env): Input
  {
    var blob := FullBlob(env);
    Input(blob, Some(blob), Some(blob), Some(blob), Some(Tally(0, 0, 0)), false, Some(blob), None, None, None)
  }

  function FullRecord(env: Env): Record
  {
    Record(ExpectedId(env, [], FullInput(env)), [], 0, 1_000, FullInput(env))
  }

  lemma FullRecordIsValid(env: Env, config: Config)
    requires config.retention == SECOND
    ensures RecordValid(env, config, FullRecord(env))
    ensures SizeOf(env, FullRecord(env)) <= env.metadataBytes(FullRecord(env)) + |COMPONENTS|
  {
    hide ExpectedId, BlobTotal;
    SmallTotal(FullInput(env), COMPONENTS);
  }

  lemma {:induction false} SmallTotal(input: Input, components: seq<Component>)
    requires forall c {:trigger input.At(c)} :: input.At(c).Some? ==> input.At(c).value.length <= 1
    ensures BlobTotal(input, components) <= |components|
  {
    hide Input.At;
    if components != [] { SmallTotal(input, components[..|components| - 1]); }
  }

  function FullFiles(id: Text): map<(Text, Component), Text>
  {
    map[(id, Report) := [0], (id, Plan) := [0], (id, Evidence) := [0], (id, Assessment) := [0], (id, Semantic) := [0]]
  }

  /** A root for one record, holding one with all five payloads. */
  function FullRoot(env: Env): Disk
  {
    Disk(0, map[FullRecord(env).id := FullRecord(env)], FullFiles(FullRecord(env).id), 0)
  }

  lemma FullRootIsSound(env: Env, config: Config, temps: nat)
    requires config == WideConfig(config.baseUrl, SECOND, 1)
    requires env.metadataBytes(FullRecord(env)) <= MAX_RECORD_METADATA_BYTES
    ensures DiskSound(env, config, FullRoot(env).(temps := temps))
  {
    hide RecordValid, SizeOf, Sizes, Total, FullFiles, FullInput, Held, ExpectedId;
    FullRecordIsValid(env, config);
    FullIsHeld(env);
    var record := FullRecord(env);
    var bare := Disk(0, map[], FullFiles(record.id), temps);
    NothingWeighs(env);
    MetaWritten(env, config, bare, record);
    assert FullRoot(env).(temps := temps) == bare.(metas := bare.metas[record.id := record]);
  }

  lemma NothingWeighs(env: Env)
    ensures Total(Sizes(env, map[])) == 0
  {
    assert Sizes(env, map[]) == map[];
  }

  /** It is tidy, at rest until its record ends, and one entry short of the ceiling. */
  lemma FullRootIsTidy(env: Env, config: Config)
    requires config.maxRecords == 1
    ensures AtRest(FullRoot(env), 0) && Entries(FullRoot(env)) == 8 && Ceiling(config) == 9
  {
    hide NoOrphans, FullFiles, FullRecord;
    FiveFiles(FullRecord(env).id);
    FullIsNamed(env);
    FullIsAhead(env);
    assert |FullRoot(env).metas| == 1;
  }

  lemma FullIsNamed(env: Env)
    ensures NoOrphans(FullRoot(env))
  {
    hide ExpectedId;
  }

  lemma FullIsAhead(env: Env)
    ensures Live(FullRoot(env).metas, 0) == FullRoot(env).metas
  {
    hide ExpectedId, FullInput;
  }

  lemma FullIsHeld(env: Env)
    ensures Held(env, FullFiles(FullRecord(env).id), FullRecord(env))
  {
    hide ExpectedId;
  }

  lemma FiveFiles(id: Text)
    ensures |FullFiles(id)| == 5
  {
  }

  /**
   * An opening cut off while it saves the mark leaves its temporary directory
   * before anything is scanned. On a full root two such openings in a row leave a
   * directory over the ceiling, and from then on every opening finds a root whose
   * every record is whole corrupt.
   */
  method CutOpeningsOverfill(env: Env, base: Text) returns (store: FileArtifactStore, r: Result<(), ArtifactError>)
    requires Routes(env, base) && env.metadataBytes(FullRecord(env)) <= MAX_RECORD_METADATA_BYTES
    ensures ConfigValid(store.env, store.config) && DiskSound(store.env, store.config, store.disk)
    ensures r == Err(Corrupt) && store.env == env && store.disk == FullRoot(env).(temps := 2)
  {
    hide DiskSound, FullRecord, Entries, Ceiling, OpenStep, Routes;
    var config := WideConfig(base, SECOND, 1);
    store := new FileArtifactStore(env, config, FullRoot(env));
    var first := store.Reopen(1, 1, 0, true);
    var second := store.Reopen(1, 1, 0, true);
    FullRootIsSound(env, config, 2);
    FullRootIsTidy(env, config);
    TwoLeft(env);
    r := store.Reopen(0, 0, 0, true);
  }

  lemma TwoLeft(env: Env)
    ensures Entries(FullRoot(env).(temps := 2)) == Entries(FullRoot(env)) + 2
  {
  }
}

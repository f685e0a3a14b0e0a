/** The store itself (controller/src/artifacts/store.rs and store/disk.rs). */
module ArtifactService {
  import opened Machine
  import opened Bytes
  import opened Json
  import opened Totals
  import opened Deliveries
  import opened ArtifactModel
  import opened ArtifactDisk
  import opened ArtifactProtocol

  datatype Stored = Stored(metadata: Record, bytes: nat)

  /** The two maps and the counter say the same as the metadata files. */
  ghost predicate Indexes(
    env: Env, records: map<Text, Stored>, evaluations: map<Text, Text>, bytes: nat, metas: map<Text, Record>)
  {
    && Mirrors(env, records, metas)
    && Inverse(evaluations, metas)
    && bytes == Total(Sizes(env, metas))
  }

  ghost predicate Mirrors(env: Env, records: map<Text, Stored>, metas: map<Text, Record>)
  {
    && records.Keys == metas.Keys
    && forall id :: id in metas ==> records[id] == Stored(metas[id], SizeOf(env, metas[id]))
  }

  ghost predicate Inverse(evaluations: map<Text, Text>, metas: map<Text, Record>)
  {
    && (forall e :: e in evaluations ==> evaluations[e] in metas && metas[evaluations[e]].evaluation == e)
    && (forall id :: id in metas ==> metas[id].evaluation in evaluations && evaluations[metas[id].evaluation] == id)
  }

  /** The bytes handed over are the ones the record will name. */
  ghost predicate Pays(env: Env, input: Input, payloads: map<Component, Text>)
  {
    forall c {:trigger input.At(c)} ::
      (c in payloads <==> input.At(c).Some?)
      && (c in payloads ==> Describes(env.sha, input.At(c).value, payloads[c]))
  }

  class FileArtifactStore {
    const env: Env
    const config: Config
    /**
     * The directory, how many durable operations succeed before one fails, and
     * whether the failing one is a crash that leaves its temporary directory.
     */
    var disk: Disk
    var writes: nat
    var leaves: bool
    var clock: int
    var records: map<Text, Stored>
    var evaluations: map<Text, Text>
    var bytes: nat
    var trusted: bool

    ghost predicate Sound()
      reads this
    {
      ConfigValid(env, config) && DiskSound(env, config, disk)
    }

    ghost predicate Valid()
      reads this
    {
      && Sound() && disk.clock <= clock
      && (trusted ==>
            && clock == disk.clock && disk.temps == 0 && NoOrphans(disk)
            && Indexes(env, records, evaluations, bytes, disk.metas))
    }

    /** A root found on disk, not yet trusted: `Reopen` makes it so. */
    constructor (env: Env, config: Config, disk: Disk)
      ensures this.env == env && this.config == config && this.disk == disk && clock == disk.clock && !trusted
    {
      this.env, this.config, this.disk, writes, leaves := env, config, disk, 0, false;
      clock, records, evaluations, bytes, trusted := disk.clock, map[], map[], 0, false;
    }

    ghost function View(): Snap
      reads this
    {
      Snap(trusted, clock, disk.clock, Entries(disk), disk.metas)
    }

    /** An atomic write: all of it, or nothing but perhaps its temporary directory. */
    method Commit(next: Disk) returns (ok: bool)
      modifies this`disk, this`writes
      ensures ok <==> old(writes) > 0
      ensures disk == if ok then next else old(disk).(temps := old(disk.temps) + if leaves then 1 else 0)
      ensures !ok && old(Sound()) ==> Sound()
      ensures writes == if ok then old(writes) - 1 else 0
    {
      hide DiskSound, ConfigValid;
      ok := writes > 0;
      if ok {
        writes := writes - 1;
        disk := next;
      } else if leaves {
        TempsLeft(env, config, disk, disk.temps + 1);
        disk := disk.(temps := disk.temps + 1);
      }
    }

    /** A removal, which leaves nothing behind. */
    method Unlink(next: Disk) returns (ok: bool)
      modifies this`disk, this`writes
      ensures ok <==> old(writes) > 0
      ensures disk == if ok then next else old(disk)
      ensures writes == if ok then old(writes) - 1 else 0
    {
      ok := writes > 0;
      if ok {
        writes := writes - 1;
        disk := next;
      }
    }

    method EffectiveNow(reading: int) returns (r: Result<int, ArtifactError>)
      ensures r == if reading < 0 then Err(Clock) else Ok(Max(reading, clock))
    {
      if reading < 0 { return Err(Clock); }
      r := Ok(Max(reading, clock));
    }

    /** Raises the stored high-water mark; a failed write poisons the store. */
    method AdvanceClock(now: int) returns (r: Result<(), ArtifactError>)
      requires Valid() && trusted && clock <= now
      modifies this`disk, this`writes, this`clock, this`trusted
      ensures Valid() && clock == now && trusted == r.Ok?
      ensures disk == old(disk).(clock := disk.clock, temps := disk.temps) && old(disk.clock) <= disk.clock
      ensures Entries(disk) <= Ceiling(config)
      ensures r.Ok? ==> writes == old(writes) - if now == old(clock) then 0 else 1
      ensures r.Err? ==>
        && r.error == Io && writes == 0 == old(writes) && now != old(clock)
        && disk == old(disk).(temps := if leaves then 1 else 0)
    {
      hide DiskSound, Indexes, ConfigValid, Named;
      TidyEntries(env, config, disk);
      if now == clock { return Ok(()); }
      SoundClock(env, config, disk);
      clock := now;
      ClockWritten(env, config, disk, now);
      var ok := Commit(disk.(clock := now));
      if !ok {
        trusted := false;
        return Err(Io);
      }
      r := Ok(());
    }

    /** Drops one expired record: its metadata file first, then its payloads. */
    method RemoveRecord(record: Record) returns (r: Result<(), ArtifactError>)
      requires Sound() && NoOrphans(disk) && record.id in disk.metas && disk.metas[record.id] == record
      requires Held(env, disk.files, record)
      modifies this`disk, this`writes
      ensures Sound() && disk.clock == old(disk.clock) && disk.temps == old(disk.temps)
      ensures writes + old(Entries(disk)) == old(writes) + Entries(disk) && writes <= old(writes)
      ensures disk.metas == old(disk.metas) || disk.metas == old(disk.metas) - {record.id}
      ensures r.Ok? ==> disk.metas == old(disk.metas) - {record.id} && NoOrphans(disk)
      ensures r.Err? ==> r.error == Io && writes == 0 && (record.id in disk.metas || !NoOrphans(disk))
    {
      hide DiskSound, ConfigValid, Describes, Input.At, SizeOf, Sizes, Total, NoOrphans, OwnOrNamed;
      MetaRemoved(env, config, disk, record.id);
      OneFewerMeta(disk.metas, record.id);
      NamedWithout(disk, record);
      var ok := Unlink(disk.(metas := disk.metas - {record.id}));
      if !ok { return Err(Io); }
      r := RemovePayloads(record);
    }

    method RemovePayloads(record: Record) returns (r: Result<(), ArtifactError>)
      requires Sound() && record.id !in disk.metas
      requires OwnOrNamed(disk, record)
      modifies this`disk, this`writes
      ensures Sound() && disk == old(disk).(files := disk.files)
      ensures writes + |old(disk.files)| == old(writes) + |disk.files| && writes <= old(writes)
      ensures r.Ok? ==> NoOrphans(disk)
      ensures r.Err? ==>
        && r.error == Io
        && (|| (writes == 0 && !NoOrphans(disk))
            || exists c :: record.input.At(c).Some? && (record.id, c) !in old(disk.files))
    {
      hide DiskSound, ConfigValid, Input.At, Named;
      for i := 0 to |COMPONENTS|
        invariant Sound() && disk == old(disk).(files := disk.files)
        invariant writes + |old(disk.files)| == old(writes) + |disk.files| && writes <= old(writes)
        invariant disk.files.Keys <= old(disk.files).Keys
        invariant forall key :: key in old(disk.files) && key !in disk.files ==> key.1 in COMPONENTS[..i]
        invariant forall c :: c in COMPONENTS[..i] && record.input.At(c).Some? ==> (record.id, c) !in disk.files
      {
        var c := COMPONENTS[i];
        ListedOnce(i);
        if record.input.At(c).Some? {
          if (record.id, c) !in disk.files { return Err(Io); }
          var ok := DropFile(record.id, c);
          Unnamed(disk, record.id, c);
          if !ok { return Err(Io); }
        }
        assert COMPONENTS[..i + 1] == COMPONENTS[..i] + [c];
      }
      AllListed();
      r := Ok(());
    }

    /** Removes one payload file of a record that has no metadata. */
    method DropFile(id: Text, c: Component) returns (ok: bool)
      requires Sound() && id !in disk.metas && (id, c) in disk.files
      modifies this`disk, this`writes
      ensures Sound() && disk == old(disk).(files := disk.files)
      ensures writes + |old(disk.files)| == old(writes) + |disk.files| && writes <= old(writes)
      ensures disk.files == if ok then old(disk.files) - {(id, c)} else old(disk.files)
      ensures !ok ==> writes == 0
    {
      hide DiskSound, ConfigValid;
      var files := disk.files - {(id, c)};
      FilesWritten(env, config, disk, id, files);
      FewerFiles(disk.files, (id, c));
      ok := Unlink(disk.(files := files));
    }

    method RemoveOne(id: Text) returns (r: Result<nat, ArtifactError>)
      requires Valid() && trusted && id in disk.metas && disk.metas[id].expiresAt <= disk.clock
      modifies this`disk, this`writes, this`records, this`evaluations, this`bytes, this`trusted
      ensures Valid() && Lasts(old(View()), View()) && writes + old(Entries(disk)) == old(writes) + Entries(disk)
      ensures Entries(disk) <= old(Entries(disk)) && disk.clock == old(disk.clock)
      ensures r.Ok? ==>
        && trusted && disk.metas == old(disk.metas) - {id}
        && |disk.metas| == |old(disk.metas)| - 1 && bytes == old(bytes) - r.value
      ensures r.Err? ==> !trusted && r.error == Io && writes == 0 && Unfinished(disk)
    {
      hide DiskSound, ConfigValid, Indexes, NoOrphans, SizeOf, Sizes, Total, Held, RecordValid, Lasting, Entries,
        Unfinished;
      FilesAreOwn(env, config, disk, id);
      OneFewerMeta(disk.metas, id);
      LastingWithout(disk.clock, disk.metas, disk.clock, {id});
      LastingUnchanged(disk.clock, disk.metas, disk.clock);
      IndexesWithout(env, records, evaluations, bytes, disk.metas, id);
      var stored := records[id];
      ghost var metas := disk.metas;
      var removed := RemoveRecord(stored.metadata);
      if removed.Err? {
        CutShort(metas, disk, id);
        trusted := false;
        return Err(removed.error);
      }
      records := records - {id};
      evaluations := evaluations - {stored.metadata.evaluation};
      bytes := bytes - stored.bytes;
      r := Ok(stored.bytes);
    }

    method RemoveAll(expired: set<Text>) returns (r: Result<(nat, nat), ArtifactError>)
      requires Valid() && trusted && expired <= disk.metas.Keys
      requires AllEnded(disk.metas, expired, disk.clock)
      modifies this`disk, this`writes, this`records, this`evaluations, this`bytes, this`trusted
      ensures Valid() && Lasts(old(View()), View()) && writes + old(Entries(disk)) == old(writes) + Entries(disk)
      ensures Entries(disk) <= old(Entries(disk))
      ensures r.Ok? ==>
        && trusted && disk.metas == old(disk.metas) - expired
        && r.value.0 == |old(disk.metas)| - |disk.metas| && r.value.1 == old(bytes) - bytes
      ensures r.Err? ==> !trusted && r.error == Io && writes == 0
      ensures r.Err? ==> Unfinished(disk)
    {
      hide DiskSound, ConfigValid, Indexes, NoOrphans, Unfinished, Lasting, AllEnded, Entries;
      LastingUnchanged(disk.clock, disk.metas, disk.clock);
      var removedRecords, removedBytes := 0, 0;
      var left := expired;
      RemovedSoFar(old(disk.metas), expired, left);
      while left != {}
        invariant Valid() && trusted && left <= expired
        invariant disk.metas == old(disk.metas) - (expired - left) && disk.clock == old(disk.clock)
        invariant removedRecords == |old(disk.metas)| - |disk.metas| && removedBytes == old(bytes) - bytes
        invariant Lasts(old(View()), View()) && Entries(disk) <= old(Entries(disk))
        invariant writes + old(Entries(disk)) == old(writes) + Entries(disk)
        decreases left
      {
        var id :| id in left;
        RemovedNext(old(disk.metas), expired, left, id);
        EndedNext(old(disk.metas), disk.metas, expired, left, id, disk.clock);
        ghost var before := View();
        var removed := RemoveOne(id);
        LastsAfter(old(View()), before, View());
        if removed.Err? { return Err(removed.error); }
        removedRecords, removedBytes := removedRecords + 1, removedBytes + removed.value;
        left := left - {id};
      }
      RemovedSoFar(old(disk.metas), expired, left);
      r := Ok((removedRecords, removedBytes));
    }

    /** Removes what has expired and reports exactly what that released. */
    method RemoveExpired(now: int) returns (r: Result<(nat, nat), ArtifactError>)
      requires Valid() && trusted && clock <= now
      modifies this`disk, this`writes, this`clock, this`records, this`evaluations, this`bytes, this`trusted
      ensures Valid() && Onward(config, old(View()), View())
      ensures r.Ok? ==>
        && trusted && disk.metas == Live(old(disk.metas), now)
        && clock == (if disk.metas == old(disk.metas) then old(clock) else now)
        && r.value.0 == |old(disk.metas)| - |disk.metas| && r.value.1 == old(bytes) - bytes
        && old(writes) + Entries(disk) <= writes + old(Entries(disk)) + 1
      ensures r.Err? ==> !trusted && r.error == Io && writes == 0 && old(writes) < old(Entries(disk))
      ensures r.Err? ==>
        (old(writes) == 0 && old(clock) < now && disk.clock == old(disk.clock)) || Unfinished(disk)
      ensures Live(old(disk.metas), now) == old(disk.metas) ==> r.Ok? && disk == old(disk) && writes == old(writes)
      ensures Live(old(disk.metas), now) != old(disk.metas) && old(clock) < now && old(writes) == 0 ==>
        r.Err? && clock == now && disk == old(disk).(temps := if leaves then 1 else 0)
    {
      hide DiskSound, ConfigValid, Indexes, NoOrphans, SizeOf, Sizes, Total, Live, ExpiredIn, Unfinished;
      var expired := ExpiredIn(records, now);
      ExpiredMirrors(env, records, evaluations, bytes, disk.metas, now);
      TidyEntries(env, config, disk);
      if expired == {} { return Ok((0, 0)); }
      var advanced := AdvanceClock(now);
      if advanced.Err? { return Err(advanced.error); }
      ghost var before := View();
      r := RemoveAll(expired);
      LastsAfter(old(View()), before, View());
    }

    /** What every call does first: check the flag, read the clock, sweep. */
    method Enter(reading: int) returns (r: Result<Entry, ArtifactError>)
      requires Valid()
      modifies this`disk, this`writes, this`clock, this`records, this`evaluations, this`bytes, this`trusted
      ensures Valid()
      ensures r.Ok? ==> Entered(config, old(View()), reading, r.value.now, View())
      ensures r.Ok? ==> Released(env, old(View()), r.value, View())
      ensures r.Err? ==> Refused(config, old(View()), View()) && r.error != Conflict && (reading < 0 || !trusted)
      ensures r.Err? && old(trusted) ==> if reading < 0 then r.error == Clock else r.error == Io && !trusted
      ensures r.Ok? ==> old(writes) + Entries(disk) <= writes + old(Entries(disk)) + 1
      ensures old(trusted) && !trusted ==> writes == 0 && old(writes) < old(Entries(disk))
      ensures
        var now := Max(reading, old(clock));
        old(trusted) && 0 <= reading ==>
          && (Live(old(disk.metas), now) == old(disk.metas) ==> r.Ok? && disk == old(disk) && writes == old(writes))
          && (Live(old(disk.metas), now) != old(disk.metas) && old(clock) < now && old(writes) == 0 ==>
                r.Err? && clock == now && disk == old(disk).(temps := if leaves then 1 else 0))
    {
      hide DiskSound, ConfigValid, Indexes, NoOrphans, Live, SizeOf, Sizes, Total;
      if !trusted { return Err(Corrupt); }
      TidyEntries(env, config, disk);
      var now :- EffectiveNow(reading);
      RecordsMirror(env, records, evaluations, bytes, disk.metas);
      var swept := RemoveExpired(now);
      if swept.Err? { return Err(swept.error); }
      RecordsMirror(env, records, evaluations, bytes, disk.metas);
      r := Ok(Entry(now, swept.value.0, swept.value.1));
    }

    method Cleanup(reading: int) returns (out: Outcome)
      requires Valid()
      modifies this`disk, this`writes, this`clock, this`records, this`evaluations, this`bytes, this`trusted
      ensures Valid()
      ensures Step(env, config, old(View()), reading, Op.Cleanup, out, View())
      ensures old(trusted) && !trusted ==> writes == 0 && old(writes) < old(Entries(disk))
      ensures trusted && reading >= 0 ==> out.Cleaned?
      ensures
        var now := Max(reading, old(clock));
        old(trusted) && 0 <= reading && Live(old(disk.metas), now) != old(disk.metas) && old(clock) < now
        && old(writes) == 0 ==>
          out == Failed(Io) && !trusted && clock == now && disk == old(disk).(temps := if leaves then 1 else 0)
    {
      hide DiskSound, ConfigValid, Indexes, NoOrphans, Live, Sizes, Total, Step, Entered;
      var entry := Enter(reading);
      if entry.Err? {
        RefusedStep(env, config, old(View()), reading, Op.Cleanup, entry.error, View());
        return Failed(entry.error);
      }
      out := Cleaned(entry.value.removedRecords, entry.value.removedBytes);
      AnsweredStep(env, config, old(View()), reading, entry.value.now, Op.Cleanup, out, View());
    }

    method Find(evaluation: Text, reading: int) returns (out: Outcome)
      requires Valid()
      modifies this`disk, this`writes, this`clock, this`records, this`evaluations, this`bytes, this`trusted
      ensures Valid()
      ensures Step(env, config, old(View()), reading, Op.Find(evaluation), out, View())
      ensures old(trusted) && !trusted ==> writes == 0 && old(writes) < old(Entries(disk))
      ensures trusted && reading >= 0 ==> out.Found?
    {
      hide DiskSound, ConfigValid, Indexes, NoOrphans, Live, Step, Entered, Released, Swept, CheckedReference, RefOf;
      var entry := Enter(reading);
      if entry.Err? {
        RefusedStep(env, config, old(View()), reading, Op.Find(evaluation), entry.error, View());
        return Failed(entry.error);
      }
      var id := if evaluation in evaluations then evaluations[evaluation] else [];
      EnteredAt(config, old(View()), reading, entry.value.now, View(), id);
      EvaluationFinds(env, records, evaluations, bytes, disk.metas, evaluation);
      if evaluation !in evaluations {
        out := Found(None);
      } else {
        var record := records[evaluations[evaluation]].metadata;
        ReferenceOfStored(env, config, disk, evaluations[evaluation]);
        out := Found(Some(CheckedReference(env, config, record).value));
        assert Answers(config, View(), entry.value.now, evaluations[evaluation], out.found.value);
      }
      AnsweredStep(env, config, old(View()), reading, entry.value.now, Op.Find(evaluation), out, View());
    }

    method ReadBlob(id: Text, component: Component, blob: Blob) returns (r: Result<Text, ArtifactError>)
      ensures r.Ok? <==> (id, component) in disk.files && Describes(env.sha, blob, disk.files[(id, component)])
      ensures r.Ok? ==> r.value == disk.files[(id, component)]
    {
      if (id, component) !in disk.files { return Err(Io); }
      var content := disk.files[(id, component)];
      if |content| != blob.length || env.sha(content) != blob.digest { return Err(Corrupt); }
      r := Ok(content);
    }

    /** A component a live record names is always read back. */
    method Read(id: Text, component: Component, reading: int) returns (out: Outcome)
      requires Valid()
      modifies this`disk, this`writes, this`clock, this`records, this`evaluations, this`bytes, this`trusted
      ensures Valid()
      ensures Step(env, config, old(View()), reading, Op.Read(id, component), out, View())
      ensures old(trusted) && !trusted ==> writes == 0 && old(writes) < old(Entries(disk))
      ensures reading >= 0 && trusted && id in disk.metas && disk.metas[id].input.At(component).Some? ==> out.Content?
    {
      hide DiskSound, ConfigValid, Indexes, NoOrphans, Live, Describes, Input.At, Held, Step, Entered, Released, Swept,
        RecordValid, SizeOf, Sizes, Total, Onward, Refused, Entries;
      ghost var op := Op.Read(id, component);
      StoredIdsAreValid(env, config, disk, id);
      if !ValidId(id) {
        UnchangedStep(this, reading, op, NotFound);
        return Failed(NotFound);
      }
      var entry := Enter(reading);
      if entry.Err? {
        RefusedStep(env, config, old(View()), reading, op, entry.error, View());
        return Failed(entry.error);
      }
      EnteredAt(config, old(View()), reading, entry.value.now, View(), id);
      RecordsMirror(env, records, evaluations, bytes, disk.metas);
      if id !in records || records[id].metadata.input.At(component).None? {
        LateFailure(env, config, old(View()), reading, entry.value.now, op, NotFound, View());
        return Failed(NotFound);
      }
      var record := records[id].metadata;
      var blob := record.input.At(component);
      FilesAreOwn(env, config, disk, id);
      HeldAt(env, disk.files, record, component);
      var content := ReadBlob(id, component, blob.value);
      out := Content(content.value);
      AnsweredStep(env, config, old(View()), reading, entry.value.now, op, out, View());
    }

    /** The reference of a live record always verifies. */
    method Verify(reference: Reference, reading: int) returns (out: Outcome)
      requires Valid()
      modifies this`disk, this`writes, this`clock, this`records, this`evaluations, this`bytes, this`trusted
      ensures Valid()
      ensures Step(env, config, old(View()), reading, Op.Verify(reference), out, View())
      ensures old(trusted) && !trusted ==> writes == 0 && old(writes) < old(Entries(disk))
      ensures reading >= 0 && trusted && Names(config, disk.metas, reference) ==> out == Verified
    {
      hide DiskSound, ConfigValid, Indexes, NoOrphans, Live, Held, Step, Entered, Released, Swept, RecordValid, SizeOf,
        Sizes, Total, CheckedReference, RefOf;
      ghost var op := Op.Verify(reference);
      var entry := Enter(reading);
      if entry.Err? {
        RefusedStep(env, config, old(View()), reading, op, entry.error, View());
        return Failed(entry.error);
      }
      EnteredAt(config, old(View()), reading, entry.value.now, View(), reference.id);
      RecordsMirror(env, records, evaluations, bytes, disk.metas);
      if reference.id !in records {
        LateFailure(env, config, old(View()), reading, entry.value.now, op, NotFound, View());
        return Failed(NotFound);
      }
      var record := records[reference.id].metadata;
      ReferenceOfStored(env, config, disk, reference.id);
      if CheckedReference(env, config, record).value != reference {
        LateFailure(env, config, old(View()), reading, entry.value.now, op, Conflict, View());
        return Failed(Conflict);
      }
      FilesAreOwn(env, config, disk, reference.id);
      var checked := CheckBlobs(record);
      out := Verified;
      AnsweredStep(env, config, old(View()), reading, entry.value.now, op, out, View());
    }

    /** The encoded size of a record, unless it overflows. */
    method Measure(record: Record) returns (size: Option<nat>)
      ensures size == if SizeOf(env, record) <= U64_MAX then Some(SizeOf(env, record)) else None
    {
      hide Input.At, BlobTotal;
      var total := env.metadataBytes(record);
      NoBlobs(record.input);
      for i := 0 to |COMPONENTS|
        invariant total == env.metadataBytes(record) + BlobTotal(record.input, COMPONENTS[..i])
        invariant i > 0 ==> total <= U64_MAX
      {
        OneMoreBlob(record.input, i);
        var blob := record.input.At(COMPONENTS[i]);
        var sum := AddU64(total, if blob.Some? then blob.value.length else 0);
        if sum.None? { return None; }
        total := sum.value;
      }
      assert COMPONENTS[..|COMPONENTS|] == COMPONENTS;
      size := Some(total);
    }

    /** Writes the payload files of a new record; undoes them when one fails. */
    method WritePayloads(id: Text, payloads: map<Component, Text>) returns (r: Result<(), ArtifactError>)
      requires Sound() && id !in disk.metas && forall c :: (id, c) !in disk.files
      modifies this`disk, this`writes
      ensures Sound() && disk == old(disk).(files := disk.files, temps := disk.temps)
      ensures AddedWithin(id, payloads, old(disk.files), disk.files)
      ensures r.Ok? ==> AddedFor(id, payloads, old(disk.files), disk.files) && disk.temps == old(disk.temps)
      ensures r.Ok? ==> writes == old(writes) - Paid(payloads, |COMPONENTS|)
      ensures r.Err? ==> r.error == Io && writes == 0 && disk.temps <= old(disk.temps) + 1
      ensures r.Err? ==> old(writes) < Paid(payloads, |COMPONENTS|)
    {
      hide DiskSound, ConfigValid, Paid, AgreeOff, AddedFor, AddedWithin, FilledTo;
      PaidNext(payloads, 0);
      NothingFilled(id, payloads, disk.files);
      for i := 0 to |COMPONENTS|
        invariant Sound() && disk == old(disk).(files := disk.files)
        invariant FilledTo(id, payloads, i, old(disk.files), disk.files)
        invariant writes + Paid(payloads, i) == old(writes)
      {
        var c := COMPONENTS[i];
        PaidNext(payloads, i + 1);
        FilledNext(id, payloads, i, old(disk.files), disk.files);
        if c in payloads {
          var r' := WriteNew(id, c, payloads[c]);
          if r'.Err? {
            FilledWithin(id, payloads, i, old(disk.files), disk.files);
            ghost var files := disk.files;
            UndoPayloads(id, payloads, i);
            StillWithin(id, payloads, old(disk.files), files, disk.files);
            return r';
          }
        }
      }
      FilledWithin(id, payloads, |COMPONENTS|, old(disk.files), disk.files);
      FilledAll(id, payloads, old(disk.files), disk.files);
      r := Ok(());
    }

    method WriteNew(id: Text, c: Component, content: Text) returns (r: Result<(), ArtifactError>)
      requires Sound() && id !in disk.metas
      modifies this`disk, this`writes
      ensures Sound()
      ensures disk ==
        if r.Ok? then old(disk).(files := old(disk).files[(id, c) := content]) else old(disk).(temps := disk.temps)
      ensures old(disk.temps) <= disk.temps <= old(disk.temps) + 1
      ensures r.Ok? ==> writes == old(writes) - 1
      ensures r.Err? ==>
        if (id, c) in disk.files then r.error == Conflict else r.error == Io && writes == 0 == old(writes)
    {
      hide DiskSound, ConfigValid;
      if (id, c) in disk.files { return Err(Conflict); }
      FilesWritten(env, config, disk, id, disk.files[(id, c) := content]);
      var ok := Commit(disk.(files := disk.files[(id, c) := content]));
      r := if ok then Ok(()) else Err(Io);
    }

    method UndoPayloads(id: Text, payloads: map<Component, Text>, count: nat)
      requires Sound() && id !in disk.metas && count <= |COMPONENTS|
      modifies this`disk, this`writes
      ensures Sound() && disk == old(disk).(files := disk.files) && writes <= old(writes)
      ensures disk.files.Keys <= old(disk.files).Keys && AgreeOff(id, old(disk.files), disk.files)
      ensures forall c :: (id, c) in old(disk.files) && (id, c) !in disk.files ==> c in payloads
      ensures 0 < writes ==>
        forall j :: 0 <= j < count && COMPONENTS[j] in payloads ==> (id, COMPONENTS[j]) !in disk.files
    {
      hide DiskSound, ConfigValid;
      for i := 0 to count
        invariant Sound() && disk == old(disk).(files := disk.files) && writes <= old(writes)
        invariant disk.files.Keys <= old(disk.files).Keys && AgreeOff(id, old(disk.files), disk.files)
        invariant forall c :: (id, c) in old(disk.files) && (id, c) !in disk.files ==> c in payloads
        invariant 0 < writes ==>
          forall j :: 0 <= j < i && COMPONENTS[j] in payloads ==> (id, COMPONENTS[j]) !in disk.files
      {
        var key := (id, COMPONENTS[i]);
        if COMPONENTS[i] in payloads && key in disk.files {
          FilesWritten(env, config, disk, id, disk.files - {key});
          var ok := Unlink(disk.(files := disk.files - {key}));
          if !ok { return; }
        }
      }
    }

    /** Payloads first, metadata last: a cut-off write leaves no record behind. */
    method WriteRecord(record: Record, payloads: map<Component, Text>) returns (r: Result<(), ArtifactError>)
      requires Sound() && NoOrphans(disk) && disk.temps == 0 && Admissible(env, config, disk, record)
      requires Pays(env, record.input, payloads)
      modifies this`disk, this`writes
      ensures Sound() && disk.clock == old(disk.clock)
      ensures r.Ok? ==> disk.metas == old(disk.metas)[record.id := record] && NoOrphans(disk) && disk.temps == 0
      ensures r.Err? ==>
        && disk.metas == old(disk.metas) && r.error == Io && writes == 0 && Entries(disk) <= Ceiling(config)
        && old(writes) <= Paid(payloads, |COMPONENTS|)
    {
      hide DiskSound, ConfigValid, Describes, Input.At, SizeOf, Sizes, Total, RecordValid, AddedFor, NoOrphans, Pays;
      NoFilesFor(disk, record.id);
      r := WritePayloads(record.id, payloads);
      if r.Err? {
        CutEntries(env, config, old(disk), disk, record, payloads);
        return;
      }
      ghost var written := disk;
      NewRecordHeld(env, old(disk), written, record, payloads);
      MetaWritten(env, config, disk, record);
      var ok := Commit(disk.(metas := disk.metas[record.id := record]));
      if !ok {
        UndoPayloads(record.id, payloads, |COMPONENTS|);
        StillWithin(record.id, payloads, old(disk.files), written.files, disk.files);
        CutEntries(env, config, old(disk), disk, record, payloads);
        return Err(Io);
      }
    }

    /** Retains a record once for its evaluation. */
    method RetainRecord(evaluation: Text, input: Input, payloads: map<Component, Text>, reading: int)
      returns (out: Outcome)
      requires Valid() && Pays(env, input, payloads)
      modifies this`disk, this`writes, this`clock, this`records, this`evaluations, this`bytes, this`trusted
      ensures Valid()
      ensures Step(env, config, old(View()), reading, Op.Retain(evaluation, input), out, View())
      ensures old(trusted) && !trusted ==>
        writes == 0 && old(writes) <= old(Entries(disk)) + Paid(payloads, |COMPONENTS|)
      ensures trusted && reading >= 0 && out.Failed? && out.error != Conflict ==>
        Unfit(env, config, disk, evaluation, Max(reading, old(clock)), input)
    {
      hide DiskSound, ConfigValid, Indexes, NoOrphans, Live, Step, Entered, Released, Swept, CheckedReference, RefOf,
        Pays, RecordValid, NewRecord, Sizes, Total, SizeOf;
      ghost var op := Op.Retain(evaluation, input);
      var entry := Enter(reading);
      if entry.Err? {
        RefusedStep(env, config, old(View()), reading, op, entry.error, View());
        return Failed(entry.error);
      }
      var now := entry.value.now;
      EnteredAt(config, old(View()), reading, now, View(), []);
      var made := NewRecord(env, config, evaluation, now, input);
      NewRecordMeans(env, config, evaluation, now, input);
      if made.Err? {
        LateFailure(env, config, old(View()), reading, now, op, made.error, View());
        return Failed(made.error);
      }
      var record := made.value;
      EvaluationFinds(env, records, evaluations, bytes, disk.metas, evaluation);
      RecordsMirror(env, records, evaluations, bytes, disk.metas);
      if evaluation in evaluations {
        out := Again(record, reading, now, old(View()), input);
        return;
      }
      if record.id in records {
        ReboundAt(env, disk.metas, op, record.id);
        EnteredLive(config, old(View()), reading, now, View());
        LateFailure(env, config, old(View()), reading, now, op, Conflict, View());
        return Failed(Conflict);
      }
      out := Admit(record, payloads, reading, now, old(View()));
    }

    /** The evaluation already has a record: its own reference, or a conflict. */
    method Again(record: Record, reading: int, now: int, ghost s: Snap, ghost input: Input) returns (out: Outcome)
      requires Valid() && trusted && Entered(config, s, reading, now, View())
      requires record.evaluation in evaluations && record.id == ExpectedId(env, record.evaluation, input)
      requires NewRecord(env, config, record.evaluation, now, input).Ok?
      ensures Step(env, config, s, reading, Op.Retain(record.evaluation, input), out, View())
      ensures out.Retained? || out == Failed(Conflict)
    {
      hide DiskSound, ConfigValid, Indexes, NoOrphans, Live, Step, Entered, CheckedReference, RefOf, RecordValid, Sizes,
        Total, SizeOf, ExpectedId;
      ghost var op := Op.Retain(record.evaluation, input);
      EvaluationFinds(env, records, evaluations, bytes, disk.metas, record.evaluation);
      EnteredLive(config, s, reading, now, View());
      var id := evaluations[record.evaluation];
      var existing := records[id].metadata;
      FilesAreOwn(env, config, disk, id);
      if existing.id != record.id {
        ReboundAt(env, disk.metas, op, id);
        LateFailure(env, config, s, reading, now, op, Conflict, View());
        return Failed(Conflict);
      }
      ReferenceOfStored(env, config, disk, id);
      out := Retained(CheckedReference(env, config, existing).value);
      RetainedAgainStep(env, config, s, reading, now, op, out, View());
    }

    /** The evaluation is new: admit its record if it fits. */
    method Admit(record: Record, payloads: map<Component, Text>, reading: int, now: int, ghost s: Snap)
      returns (out: Outcome)
      requires Valid() && trusted && Entered(config, s, reading, now, View())
      requires RecordValid(env, config, record) && record.createdAt == now && Pays(env, record.input, payloads)
      requires record.id == ExpectedId(env, record.evaluation, record.input)
      requires NewRecord(env, config, record.evaluation, now, record.input).Ok?
      requires record.evaluation !in evaluations && record.id !in records
      modifies this`disk, this`writes, this`clock, this`records, this`evaluations, this`bytes, this`trusted
      ensures Valid()
      ensures Step(env, config, s, reading, Op.Retain(record.evaluation, record.input), out, View())
      ensures !trusted ==> writes == 0 && old(writes) < Paid(payloads, |COMPONENTS|) + 2
      ensures trusted && out.Failed? ==> disk == old(disk) && !Admissible(env, config, disk, record)
    {
      hide DiskSound, ConfigValid, Indexes, NoOrphans, Live, Step, Entered, RefOf, Pays, RecordValid, ExpectedId,
        Sizes, Total, SizeOf, Admissible;
      ghost var op := Op.Retain(record.evaluation, record.input);
      EnteredAt(config, s, reading, now, View(), []);
      EnteredLive(config, s, reading, now, View());
      RecordsMirror(env, records, evaluations, bytes, disk.metas);
      var fits := Fits(record);
      if fits.Err? {
        LateFailure(env, config, s, reading, now, op, fits.error, View());
        return Failed(fits.error);
      }
      AdmissibleMeans(env, config, disk, record);
      StoredEvaluations(s.metas, disk.metas, now, record);
      ghost var before := View();
      var stored := Keep(record, payloads, fits.value, now);
      LastsAfter(s, before, View());
      if stored.Err? {
        PoisonedStep(env, config, s, reading, op, stored.error, View());
        return Failed(stored.error);
      }
      RetainedNewStep(env, config, s, reading, now, op, record, View());
      out := Retained(stored.value);
    }

    /** The size of a new record, if its metadata, its bytes and the root's capacities allow it. */
    method Fits(record: Record) returns (r: Result<nat, ArtifactError>)
      requires Valid() && trusted && RecordValid(env, config, record)
      requires record.evaluation !in evaluations && record.id !in records
      ensures r.Ok? <==> Admissible(env, config, disk, record)
      ensures r.Ok? ==> r.value == SizeOf(env, record)
      ensures r.Err? ==> r.error in {Corrupt, TooLarge, Full}
      ensures r == Err(Full) ==>
        |disk.metas| == config.maxRecords || Total(Sizes(env, disk.metas)) + SizeOf(env, record) > config.maxBytes
    {
      hide DiskSound, ConfigValid, Indexes, NoOrphans, RecordValid, Sizes, Total, SizeOf;
      RecordsMirror(env, records, evaluations, bytes, disk.metas);
      EvaluationFinds(env, records, evaluations, bytes, disk.metas, record.evaluation);
      CountsAgree(records, disk.metas);
      CapacityBounds(env, config, disk);
      if env.metadataBytes(record) > MAX_RECORD_METADATA_BYTES { return Err(Corrupt); }
      var size := Measure(record);
      if size.None? || size.value > config.maxRecordBytes { return Err(TooLarge); }
      var total := AddU64(bytes, size.value);
      if |records| >= config.maxRecords || total.None? || total.value > config.maxBytes { return Err(Full); }
      r := Ok(size.value);
    }

    /** Writes an admissible record, then enters it in the counter and both maps. */
    method Keep(record: Record, payloads: map<Component, Text>, size: nat, now: int)
      returns (r: Result<Reference, ArtifactError>)
      requires Valid() && trusted && clock <= now && record.createdAt == now && Admissible(env, config, disk, record)
      requires Pays(env, record.input, payloads) && size == SizeOf(env, record) && record.evaluation !in evaluations
      modifies this`disk, this`writes, this`clock, this`records, this`evaluations, this`bytes, this`trusted
      ensures Valid() && clock == now && trusted == r.Ok? && Onward(config, old(View()), View())
      ensures r.Ok? ==> disk.metas == old(disk.metas)[record.id := record] && r.value == RefOf(config, record)
      ensures r.Err? ==>
        && r.error == Io && writes == 0 && disk.metas == old(disk.metas)
        && old(writes) <= Paid(payloads, |COMPONENTS|) + if now == old(clock) then 0 else 1
    {
      hide DiskSound, ConfigValid, Indexes, NoOrphans, CheckedReference, RefOf, Pays, RecordValid, Sizes, Total, SizeOf,
        Admissible, Paid, Entries, Ceiling;
      var advanced := AdvanceClock(now);
      if advanced.Err? { return Err(advanced.error); }
      AdmissibleLater(env, config, old(disk), disk, record);
      var written := WriteRecord(record, payloads);
      if written.Err? {
        trusted := false;
        return Err(written.error);
      }
      AdmissibleMeans(env, config, old(disk), record);
      LastingWith(old(disk.clock), old(disk.metas), disk.clock, record);
      TidyEntries(env, config, disk);
      IndexesWith(env, records, evaluations, bytes, old(disk.metas), record, size);
      bytes := bytes + size;
      evaluations := evaluations[record.evaluation := record.id];
      ReferenceNeverFails(env, config, record);
      r := Ok(CheckedReference(env, config, record).value);
      records := records[record.id := Stored(record, size)];
    }

    /** Reads every component of a record back. */
    method CheckBlobs(record: Record) returns (r: Result<(), ArtifactError>)
      ensures r.Ok? <==> Held(env, disk.files, record)
    {
      hide Describes, Input.At;
      for i := 0 to |COMPONENTS|
        invariant forall c :: c in COMPONENTS[..i] && record.input.At(c).Some? ==>
          (record.id, c) in disk.files && Describes(env.sha, record.input.At(c).value, disk.files[(record.id, c)])
      {
        var blob := record.input.At(COMPONENTS[i]);
        assert COMPONENTS[..i + 1] == COMPONENTS[..i] + [COMPONENTS[i]];
        if blob.Some? {
          var content := ReadBlob(record.id, COMPONENTS[i], blob.value);
          if content.Err? { return Err(content.error); }
        }
      }
      forall c ensures c in COMPONENTS[..|COMPONENTS|] {
        EveryComponent(c);
        assert COMPONENTS[..|COMPONENTS|] == COMPONENTS;
      }
      r := Ok(());
    }

    /** The size of one metadata file's record, if the record and its payloads are exact. */
    method ScanOne(id: Text) returns (size: Option<nat>)
      requires id in disk.metas
      ensures size.Some? <==> MetaSound(env, config, disk, id) && SizeOf(env, disk.metas[id]) <= U64_MAX
      ensures size.Some? ==> size.value == SizeOf(env, disk.metas[id])
    {
      hide RecordValid, Held, SizeOf;
      var record := disk.metas[id];
      if env.metadataBytes(record) > MAX_RECORD_METADATA_BYTES { return None; }
      if !RecordValid(env, config, record) || record.id != id { return None; }
      var checked := CheckBlobs(record);
      if checked.Err? { return None; }
      size := Measure(record);
      if size.Some? && size.value > config.maxRecordBytes { size := None; }
    }

    /** Enters one more metadata file, unless it clashes or does not fit. */
    method ScanNext(id: Text, ghost part: map<Text, Record>) returns (ok: bool)
      requires ConfigValid(env, config) && id in disk.metas && id !in part && bytes <= config.maxBytes
      requires part.Keys <= disk.metas.Keys && forall other :: other in part ==> part[other] == disk.metas[other]
      requires Indexes(env, records, evaluations, bytes, part)
      modifies this`records, this`evaluations, this`bytes
      ensures ok ==>
        && MetaSound(env, config, disk, id) && bytes <= config.maxBytes
        && Indexes(env, records, evaluations, bytes, part[id := disk.metas[id]])
      ensures !ok ==> !DiskSound(env, config, disk)
    {
      hide ConfigValid, MetaSound, Indexes, OneEach, SizeOf, Sizes, Total;
      var record := disk.metas[id];
      WideEnough(env, config);
      EvaluationFinds(env, records, evaluations, bytes, part, record.evaluation);
      if record.evaluation in evaluations {
        NotOneEach(disk.metas, id, evaluations[record.evaluation]);
        return false;
      }
      SizeWithinRecord(env, config, disk, id);
      var size := ScanOne(id);
      if size.None? { return false; }
      SoundId(env, config, disk, id);
      PartTotal(env, disk.metas, part, record);
      RecordsMirror(env, records, evaluations, bytes, part);
      if bytes + size.value > config.maxBytes { return false; }
      IndexesWith(env, records, evaluations, bytes, part, record, size.value);
      records := records[id := Stored(record, size.value)];
      evaluations := evaluations[record.evaluation := id];
      bytes := bytes + size.value;
      ok := true;
    }

    /** Rebuilds the maps and the counter from the files; refuses exactly an unsound root. */
    method ReadRecords() returns (ok: bool)
      requires ConfigValid(env, config) && 0 <= disk.clock
      modifies this`records, this`evaluations, this`bytes
      ensures ok <==> DiskSound(env, config, disk)
      ensures ok ==> Indexes(env, records, evaluations, bytes, disk.metas)
    {
      hide ConfigValid, MetaSound, Indexes, SizeOf, Sizes, Total, OneEach;
      records, evaluations, bytes := map[], map[], 0;
      NothingIndexed(env);
      var left := disk.metas.Keys;
      ghost var part: map<Text, Record> := map[];
      while left != {}
        invariant left <= disk.metas.Keys && part == disk.metas - left
        invariant Indexes(env, records, evaluations, bytes, part) && bytes <= config.maxBytes
        invariant forall id :: id in part ==> MetaSound(env, config, disk, id)
        decreases left
      {
        var id :| id in left;
        ok := ScanNext(id, part);
        if !ok { return; }
        PartGrows(disk.metas, left, id);
        left, part := left - {id}, part[id := disk.metas[id]];
      }
      assert part == disk.metas;
      RecordsMirror(env, records, evaluations, bytes, disk.metas);
      IndexedOnce(env, records, evaluations, bytes, disk.metas);
      ok := |disk.metas| <= config.maxRecords;
    }

    /** Removes payload files no record names, left behind by cut-off calls. */
    method RemoveOrphans() returns (r: Result<(), ArtifactError>)
      requires Sound()
      modifies this`disk, this`writes
      ensures Sound() && disk == old(disk).(files := disk.files)
      ensures writes + |old(disk.files)| == old(writes) + |disk.files|
      ensures if r.Ok? then NoOrphans(disk) else r.error == Io && writes == 0
      ensures old(NoOrphans(disk)) ==> r.Ok? && disk == old(disk)
    {
      hide DiskSound, ConfigValid, Named;
      var left := set key | key in disk.files && !Named(disk.metas, key);
      while left != {}
        invariant Sound() && disk == old(disk).(files := disk.files) && left <= disk.files.Keys
        invariant writes + |old(disk.files)| == old(writes) + |disk.files|
        invariant old(NoOrphans(disk)) ==> left == {} && disk == old(disk)
        invariant forall key :: key in left ==> !Named(disk.metas, key)
        invariant forall key :: key in disk.files ==> key in left || Named(disk.metas, key)
        decreases left
      {
        var key :| key in left;
        OrphanRemoved(env, config, disk, key);
        FewerFiles(disk.files, key);
        var ok := Unlink(disk.(files := disk.files - {key}));
        if !ok { return Err(Io); }
        left := left - {key};
      }
      r := Ok(());
    }

    /** Removes the temporary directories of cut-off writes. */
    method RemoveTemporaries() returns (r: Result<(), ArtifactError>)
      modifies this`disk, this`writes
      ensures disk == old(disk).(temps := disk.temps) && disk.temps <= old(disk.temps)
      ensures Sound() <==> old(Sound())
      ensures writes + old(disk.temps) == old(writes) + disk.temps
      ensures if r.Ok? then disk.temps == 0 else r.error == Io && writes == 0 && old(disk.temps) > 0
    {
      hide DiskSound, ConfigValid;
      while disk.temps > 0
        invariant disk == old(disk).(temps := disk.temps) && disk.temps <= old(disk.temps)
        invariant Sound() <==> old(Sound())
        invariant writes + old(disk.temps) == old(writes) + disk.temps
      {
        TempsLeft(env, config, disk, disk.temps - 1);
        var ok := Unlink(disk.(temps := disk.temps - 1));
        if !ok { return Err(Io); }
      }
      r := Ok(());
    }

    /**
     * Reads the whole root: the entries, the leftovers of cut-off writes, the records,
     * the orphans. With writes to remove the leftovers it refuses exactly an unsound or
     * overfull root.
     */
    method Scan() returns (r: Result<(), ArtifactError>)
      requires ConfigValid(env, config) && 0 <= disk.clock
      modifies this`disk, this`writes, this`records, this`evaluations, this`bytes
      ensures disk == old(disk).(files := disk.files, temps := disk.temps)
      ensures writes + old(Entries(disk)) == old(writes) + Entries(disk)
      ensures old(Sound()) || old(Entries(disk)) <= old(writes) ==>
        (r == Err(Corrupt) <==> !old(Sound()) || old(Entries(disk)) > Ceiling(config))
      ensures old(Sound()) ==> Sound()
      ensures old(Entries(disk)) > Ceiling(config) ==> r == Err(Corrupt) && disk == old(disk)
      ensures r.Ok? ==>
        && old(Sound()) && disk.temps == 0 && NoOrphans(disk)
        && Indexes(env, records, evaluations, bytes, disk.metas)
        && (old(disk.temps) == 0 && old(NoOrphans(disk)) ==> disk == old(disk))
      ensures r.Err? && r.error != Corrupt ==> r.error == Io && writes == 0
      ensures old(Sound()) && old(disk.temps) == 0 && old(NoOrphans(disk)) ==> r != Err(Io)
    {
      hide DiskSound, ConfigValid, Indexes, NoOrphans;
      if Entries(disk) > Ceiling(config) { return Err(Corrupt); }
      r := RemoveTemporaries();
      if r.Err? { return; }
      var accepted := ReadRecords();
      if !accepted { return Err(Corrupt); }
      if old(disk.temps) == 0 { assert disk == old(disk); }
      NamedAlike(old(disk), disk);
      r := RemoveOrphans();
    }

    /** Raises the saved mark to the first reading before anything is scanned. */
    method RaiseMark(reading: int) returns (r: Result<(), ArtifactError>)
      requires ConfigValid(env, config) && 0 <= disk.clock && 0 <= reading
      modifies this`disk, this`writes
      ensures Sound() <==> old(Sound())
      ensures r.Ok? ==> disk == old(disk).(clock := Max(reading, old(disk.clock)))
      ensures r.Err? ==>
        r.error == Io && writes == 0 && disk == old(disk).(temps := old(disk.temps) + if leaves then 1 else 0)
      ensures if r.Ok? then Entries(disk) == old(Entries(disk)) else Entries(disk) <= old(Entries(disk)) + 1
      ensures r.Ok? <==> reading <= old(disk.clock) || old(writes) > 0
      ensures r.Ok? ==> writes == old(writes) - if reading <= old(disk.clock) then 0 else 1
    {
      hide DiskSound, ConfigValid;
      if reading <= disk.clock { return Ok(()); }
      if Sound() { ClockWritten(env, config, disk, reading); }
      SoundUpToClock(env, config, disk, reading);
      TempsLeft(env, config, disk, disk.temps + 1);
      var ok := Commit(disk.(clock := reading));
      r := if ok then Ok(()) else Err(Io);
    }

    /** Everything after the saved mark: scan, trust, sweep. */
    method Recover(second: int) returns (r: Result<(), ArtifactError>)
      requires ConfigValid(env, config) && 0 <= disk.clock == clock && !trusted
      modifies this
      ensures leaves == old(leaves)
      ensures old(Sound()) || old(Entries(disk)) <= old(writes) ==>
        (r == Err(Corrupt) <==> !old(Sound()) || old(Entries(disk)) > Ceiling(config))
      ensures old(Entries(disk)) > Ceiling(config) ==> r == Err(Corrupt) && disk == old(disk)
      ensures r.Ok? ==>
        && old(Sound()) && 0 <= second && Recovered(old(View()), Max(second, old(clock)), View())
        && trusted && clock == disk.clock
        && old(writes) + Entries(disk) <= writes + old(Entries(disk)) + 1
      ensures old(Sound()) ==>
        && Valid() && Lasts(old(View()), View())
        && (r.Err? ==> Entries(disk) <= Max(old(Entries(disk)), Ceiling(config)))
      ensures r.Err? && r.error != Corrupt ==>
        if r.error == Clock then second < 0 else r.error == Io && writes == 0 && old(writes) < old(Entries(disk))
      ensures old(Sound()) && 0 <= second && AtRest(old(disk), Max(second, old(clock))) ==>
        r.Ok? && disk == old(disk) && writes == old(writes)
    {
      hide DiskSound, ConfigValid, Indexes, NoOrphans, Live, Lasting, Released, Ceiling, Sizes, Total;
      LastingUnchanged(disk.clock, disk.metas, disk.clock);
      ghost var before := View();
      if Sound() && NoOrphans(disk) { TidyEntries(env, config, disk); }
      r := Scan();
      if r.Err? { return; }
      trusted := true;
      ghost var scanned := View();
      var entry := Enter(second);
      LastsAfter(before, scanned, View());
      r := if entry.Err? then Err(entry.error) else Ok(());
    }

    /**
     * Opens the root again, with a new budget of durable operations. Whatever call
     * was cut off before, a sound root within the ceiling is never found corrupt,
     * and the records it keeps are exactly the unexpired ones.
     */
    method Reopen(reading: int, second: int, budget: nat, crash: bool) returns (r: Result<(), ArtifactError>)
      requires ConfigValid(env, config) && 0 <= disk.clock
      modifies this
      ensures r.Ok? ==> old(Sound())
      ensures old(Sound()) ==>
        Valid() && OpenStep(config, old(View()), reading, second, if r.Ok? then Opened else Failed(r.error), View())
      ensures 0 <= reading && (reading <= old(disk.clock) || budget > 0)
              && (old(Sound()) || old(Entries(disk)) < budget) ==>
        (r == Err(Corrupt) <==> !old(Sound()) || old(Entries(disk)) > Ceiling(config))
      ensures 0 <= reading && old(disk.clock) < reading && budget == 0 ==>
        r == Err(Io) && disk == old(disk).(temps := old(disk.temps) + if crash then 1 else 0)
      ensures r == Err(Corrupt) && old(Entries(disk)) > Ceiling(config) ==>
        disk == old(disk).(clock := Max(reading, old(disk.clock)))
      ensures r == Err(Io) ==> writes == 0 && budget <= old(Entries(disk))
      ensures r.Err? ==> r.error in {Clock, Corrupt, Io}
      ensures leaves == crash && (r.Ok? ==> trusted && clock == disk.clock)
      ensures r.Ok? ==> budget + Entries(disk) <= writes + old(Entries(disk)) + 2
      ensures old(Sound()) && 0 <= reading <= old(disk.clock) && 0 <= second
              && AtRest(old(disk), Max(second, old(disk.clock))) ==>
        r.Ok? && disk == old(disk) && writes == budget
    {
      hide DiskSound, ConfigValid, Indexes, NoOrphans, Live, Lasting, OpenStep, Recovered, AtRest, Entries, Ceiling;
      trusted, clock, writes, leaves := false, disk.clock, budget, crash;
      LastingUnchanged(disk.clock, disk.metas, disk.clock);
      if reading < 0 {
        FailedOpenStep(config, old(View()), reading, second, Clock, View());
        return Err(Clock);
      }
      LastingUnchanged(disk.clock, disk.metas, Max(reading, disk.clock));
      r := RaiseMark(reading);
      clock := disk.clock;
      if r.Err? {
        FailedOpenStep(config, old(View()), reading, second, Io, View());
        return;
      }
      ghost var raised := View();
      r := Recover(second);
      if r.Err? { trusted, clock := false, disk.clock; }
      if old(Sound()) {
        LastsAfter(old(View()), raised, View());
        if r.Err? {
          FailedOpenStep(config, old(View()), reading, second, r.error, View());
        } else {
          OpenedStep(config, old(View()), raised, reading, second, View());
        }
      }
    }

    method Retain(evaluation: Text, bundle: Bundle, reading: int) returns (out: Outcome)
      requires Valid()
      modifies this`disk, this`writes, this`clock, this`records, this`evaluations, this`bytes, this`trusted
      ensures Valid()
      ensures
        var input := RecordInput(env, bundle);
        if input.Err? then out == Failed(input.error) && View() == old(View())
        else
          && Step(env, config, old(View()), reading, Op.Retain(evaluation, input.value), out, View())
          && (trusted && reading >= 0 && out.Failed? && out.error != Conflict ==>
                Unfit(env, config, disk, evaluation, Max(reading, old(clock)), input.value))
      ensures old(trusted) && !trusted ==> writes == 0 && old(writes) <= old(Entries(disk)) + 5
      ensures out.Retained? ==>
        && RecordInput(env, bundle).Ok? && out.reference.id in disk.metas
        && out.reference.id == ExpectedId(env, evaluation, RecordInput(env, bundle).value)
        && var record := disk.metas[out.reference.id];
           && record.evaluation == evaluation
           && (|| Carries(env, config, bundle, record.createdAt, out.reference)
               || SharesIdentity(env, record, RecordInput(env, bundle).value))
    {
      hide Step, Pays, Unfit, DiskSound, ConfigValid, Indexes, NoOrphans, RecordValid, ExpectedId, RefOf, Carries,
        SharesIdentity, RecordInput, Entries;
      FivePaid(bundle);
      var input := RecordInput(env, bundle);
      if input.Err? { return Failed(input.error); }
      BundlePays(env, bundle);
      ghost var s := View();
      out := RetainRecord(evaluation, input.value, PayloadsOf(bundle), reading);
      if out.Retained? {
        RetainedIs(env, config, s, reading, evaluation, input.value, out, View());
        FilesAreOwn(env, config, disk, ExpectedId(env, evaluation, input.value));
        ReferenceCarries(env, config, bundle, disk.metas[ExpectedId(env, evaluation, input.value)]);
      }
    }
  }

  datatype Bundle = Bundle(
    report: Text, semantic: Option<Text>, plan: Option<Text>, evidence: Option<Text>, assessment: Option<Text>,
    tally: Option<Tally>, incomplete: bool)

  function OptionalBlob(sha: Hash, bytes: Option<Text>): Result<Option<Blob>, ArtifactError>
  {
    if bytes.None? then Ok(None)
    else
      var blob :- BlobOf(sha, bytes.value);
      Ok(Some(blob))
  }

  /** `record_input`. */
  function RecordInput(env: Env, bundle: Bundle): Result<Input, ArtifactError>
  {
    if (bundle.assessment.Some? != bundle.tally.Some?) || (bundle.incomplete && bundle.assessment.Some?)
       || (bundle.assessment.Some? && (bundle.plan.None? || bundle.evidence.None?)) then Err(Corrupt)
    else if bundle.semantic.Some? && !env.evidences(bundle.report, bundle.semantic.value) then Err(Corrupt)
    else
      var report :- BlobOf(env.sha, bundle.report);
      var semantic :- OptionalBlob(env.sha, bundle.semantic);
      var plan :- OptionalBlob(env.sha, bundle.plan);
      var evidence :- OptionalBlob(env.sha, bundle.evidence);
      var assessment :- OptionalBlob(env.sha, bundle.assessment);
      Ok(Input(report, plan, evidence, assessment, bundle.tally, bundle.incomplete, semantic, None, None, None))
  }

  /** The digest of some bytes, if there are any. */
  ghost function DigestOfBytes(sha: Hash, bytes: Option<Text>): Option<Text>
  {
    match bytes
    case None => None
    case Some(content) => Some(sha(content))
  }

  /** The reference states what the bundle's bytes are, where they are read, and how long they stay. */
  ghost predicate Carries(env: Env, config: Config, bundle: Bundle, createdAt: int, reference: Reference)
  {
    && reference.reportDigest == env.sha(bundle.report)
    && reference.semanticDigest == DigestOfBytes(env.sha, bundle.semantic)
    && reference.assessmentDigest == DigestOfBytes(env.sha, bundle.assessment)
    && reference.tally == bundle.tally && reference.incomplete == bundle.incomplete
    && reference.locator == config.baseUrl + Ascii("/") + reference.id + Ascii("/report")
    && reference.expiresAt == createdAt + 1_000 * config.retention.secs + config.retention.nanos / 1_000_000
  }

  /** Other content under the same identity: the two identity spellings collide under the hash. */
  ghost predicate SharesIdentity(env: Env, record: Record, input: Input)
  {
    && record.input != input
    && env.sha(env.spell(record.evaluation, record.input)) == env.sha(env.spell(record.evaluation, input))
  }

  lemma RetainedIs(
    env: Env, config: Config, s: Snap, reading: int, evaluation: Text, input: Input, out: Outcome, s': Snap)
    requires Step(env, config, s, reading, Op.Retain(evaluation, input), out, s') && out.Retained?
    ensures
      var id := ExpectedId(env, evaluation, input);
      id in s'.metas && s'.metas[id].evaluation == evaluation && out.reference == RefOf(config, s'.metas[id])
  {
    hide ExpectedId, RefOf, Live, Onward, Served, NewRecord;
  }

  lemma ReferenceCarries(env: Env, config: Config, bundle: Bundle, record: Record)
    requires RecordInput(env, bundle).Ok? && RecordValid(env, config, record)
    requires record.id == ExpectedId(env, record.evaluation, RecordInput(env, bundle).value)
    ensures RefOf(config, record).id == record.id && RefOf(config, record).expiresAt == record.expiresAt
    ensures Carries(env, config, bundle, record.createdAt, RefOf(config, record))
         || SharesIdentity(env, record, RecordInput(env, bundle).value)
  {
    hide InputValid, Ascii, Hex, RecordInput;
    var input := RecordInput(env, bundle).value;
    HexInjective(env.sha(env.spell(record.evaluation, record.input)), env.sha(env.spell(record.evaluation, input)));
    InputNames(env, bundle);
    SlashIsAscii();
  }

  lemma SlashIsAscii()
    ensures Ascii("/") == [SLASH]
  {
  }

  lemma InputNames(env: Env, bundle: Bundle)
    requires RecordInput(env, bundle).Ok?
    ensures
      var input := RecordInput(env, bundle).value;
      && input.report.digest == env.sha(bundle.report)
      && DigestOf(input.semantic) == DigestOfBytes(env.sha, bundle.semantic)
      && DigestOf(input.assessment) == DigestOfBytes(env.sha, bundle.assessment)
      && input.tally == bundle.tally && input.incomplete == bundle.incomplete
  {
  }

  /** A part that is there holds something, and no more than a machine report may. */
  ghost predicate PartFits(bytes: Option<Text>)
  {
    bytes.Some? ==> 1 <= |bytes.value| <= 268_435_456
  }

  /** Which bundles the store takes: a whole chain or none of its end, checked evidence, parts of a sane size. */
  lemma BundlesTakenExactly(env: Env, bundle: Bundle)
    ensures RecordInput(env, bundle).Ok? <==>
      && (bundle.assessment.Some? <==> bundle.tally.Some?) && !(bundle.incomplete && bundle.assessment.Some?)
      && (bundle.assessment.Some? ==> bundle.plan.Some? && bundle.evidence.Some?)
      && (bundle.semantic.Some? ==> env.evidences(bundle.report, bundle.semantic.value))
      && PartFits(Some(bundle.report)) && PartFits(bundle.semantic) && PartFits(bundle.plan)
      && PartFits(bundle.evidence) && PartFits(bundle.assessment)
    ensures RecordInput(env, bundle).Err? ==> RecordInput(env, bundle).error in {Corrupt, TooLarge}
  {
  }

  /** A taken bundle makes a record unless its end overflows or its semantic evidence is too large. */
  lemma TakenBundleMakesRecord(env: Env, config: Config, evaluation: Text, now: int, bundle: Bundle)
    requires RecordInput(env, bundle).Ok? && 0 <= now
    ensures NewRecord(env, config, evaluation, now, RecordInput(env, bundle).value).Ok? <==>
      && now + 1_000 * config.retention.secs + config.retention.nanos / 1_000_000 <= I64_MAX
      && (bundle.semantic.Some? ==> |bundle.semantic.value| <= 50_331_648)
  {
    hide ExpectedId, RecordInput;
    InputLengths(env, bundle);
  }

  lemma InputLengths(env: Env, bundle: Bundle)
    requires RecordInput(env, bundle).Ok?
    ensures
      var input := RecordInput(env, bundle).value;
      && input.report.length == |bundle.report| && PartFits(Some(bundle.report))
      && LengthMatches(input.semantic, bundle.semantic) && LengthMatches(input.plan, bundle.plan)
      && LengthMatches(input.evidence, bundle.evidence) && LengthMatches(input.assessment, bundle.assessment)
      && (input.assessment.Some? <==> input.tally.Some?) && (input.incomplete ==> input.assessment.None?)
      && (input.assessment.Some? ==> input.plan.Some? && input.evidence.Some?)
      && input.publication.None? && input.relation.None? && input.locale.None?
  {
  }

  ghost predicate LengthMatches(blob: Option<Blob>, bytes: Option<Text>)
  {
    && (blob.Some? <==> bytes.Some?) && PartFits(bytes)
    && (blob.Some? ==> blob.value.length == |bytes.value|)
  }

  function PartOf(bundle: Bundle, c: Component): Option<Text>
  {
    match c
    case Report => Some(bundle.report)
    case Semantic => bundle.semantic
    case Plan => bundle.plan
    case Evidence => bundle.evidence
    case Assessment => bundle.assessment
    case _ => None
  }

  function PayloadsOf(bundle: Bundle): map<Component, Text>
  {
    map c: Component | PartOf(bundle, c).Some? :: PartOf(bundle, c).value
  }

  /** The payload files written for the first components. */
  function Paid(payloads: map<Component, Text>, count: nat): nat
    requires count <= |COMPONENTS|
  {
    if count == 0 then 0 else Paid(payloads, count - 1) + if COMPONENTS[count - 1] in payloads then 1 else 0
  }

  lemma {:induction false} PaidGrows(payloads: map<Component, Text>, i: nat, j: nat)
    requires i <= j <= |COMPONENTS|
    ensures Paid(payloads, i) <= Paid(payloads, j)
  {
    if i < j { PaidGrows(payloads, i, j - 1); }
  }

  lemma PaidNext(payloads: map<Component, Text>, count: nat)
    requires count <= |COMPONENTS|
    ensures Paid(payloads, count) ==
      if count == 0 then 0 else Paid(payloads, count - 1) + if COMPONENTS[count - 1] in payloads then 1 else 0
    ensures Paid(payloads, count) <= Paid(payloads, |COMPONENTS|)
  {
    PaidGrows(payloads, count, |COMPONENTS|);
  }

  /** A bundle has at most five payloads. */
  lemma FivePaid(bundle: Bundle)
    ensures Paid(PayloadsOf(bundle), |COMPONENTS|) <= 5
  {
    PaidBeyond(bundle, |COMPONENTS|);
  }

  lemma {:induction false} PaidBeyond(bundle: Bundle, i: nat)
    requires i <= |COMPONENTS|
    ensures Paid(PayloadsOf(bundle), i) <= if i < 5 then i else 5
  {
    if i > 0 { PaidBeyond(bundle, i - 1); }
  }

  lemma BundlePays(env: Env, bundle: Bundle)
    requires RecordInput(env, bundle).Ok?
    ensures Pays(env, RecordInput(env, bundle).value, PayloadsOf(bundle))
  {
    hide Describes, RecordInput, Input.At, PartOf;
    var input := RecordInput(env, bundle).value;
    forall c ensures
      (input.At(c).Some? <==> PartOf(bundle, c).Some?)
      && (input.At(c).Some? ==> Describes(env.sha, input.At(c).value, PartOf(bundle, c).value))
    {
      PartDescribed(env, bundle, c);
    }
  }

  lemma PartDescribed(env: Env, bundle: Bundle, c: Component)
    requires RecordInput(env, bundle).Ok?
    ensures
      var at := RecordInput(env, bundle).value.At(c);
      (at.Some? <==> PartOf(bundle, c).Some?) && (at.Some? ==> Describes(env.sha, at.value, PartOf(bundle, c).value))
  {
    hide OptionalBlob, BlobOf, Describes;
    BlobDescribes(env.sha, PartOf(bundle, c));
  }

  lemma BlobDescribes(sha: Hash, bytes: Option<Text>)
    ensures OptionalBlob(sha, bytes).Ok? ==>
      var blob := OptionalBlob(sha, bytes).value;
      (blob.Some? <==> bytes.Some?) && (bytes.Some? ==> Describes(sha, blob.value, bytes.value))
    ensures bytes.Some? && BlobOf(sha, bytes.value).Ok? ==> Describes(sha, BlobOf(sha, bytes.value).value, bytes.value)
  {
  }

  /** Every payload file is of this record or named by a stored one. */
  ghost predicate OwnOrNamed(disk: Disk, record: Record)
  {
    forall key :: key in disk.files ==>
      if key.0 == record.id then record.input.At(key.1).Some? else Named(disk.metas, key)
  }

  lemma NamedWithout(disk: Disk, record: Record)
    requires NoOrphans(disk) && record.id in disk.metas && disk.metas[record.id] == record
    ensures OwnOrNamed(disk.(metas := disk.metas - {record.id}), record)
  {
    hide Input.At;
    forall key | key in disk.files ensures key.0 != record.id ==> Named(disk.metas - {record.id}, key) {
      assert Named(disk.metas, key);
    }
  }

  lemma NamedAlike(disk: Disk, disk': Disk)
    requires disk' == disk.(temps := disk'.temps)
    ensures NoOrphans(disk') <==> NoOrphans(disk)
  {
    hide Named;
  }

  /** A removal was cut off: an ended record or a payload without one is still there. */
  ghost predicate Unfinished(disk: Disk)
  {
    !NoOrphans(disk) || exists id :: id in disk.metas && disk.metas[id].expiresAt <= disk.clock
  }

  lemma CutShort(metas: map<Text, Record>, disk: Disk, id: Text)
    requires id in metas && metas[id].expiresAt <= disk.clock
    requires disk.metas == metas || disk.metas == metas - {id}
    requires id in disk.metas || !NoOrphans(disk)
    ensures Unfinished(disk)
  {
    hide NoOrphans;
  }

  lemma Unnamed(disk: Disk, id: Text, c: Component)
    requires id !in disk.metas
    ensures (id, c) in disk.files ==> !NoOrphans(disk)
  {
    hide Input.At;
    assert !Named(disk.metas, (id, c));
  }

  lemma AllListed()
    ensures forall c :: c in COMPONENTS[..|COMPONENTS|]
  {
    forall c ensures c in COMPONENTS[..|COMPONENTS|] {
      EveryComponent(c);
      assert COMPONENTS[..|COMPONENTS|] == COMPONENTS;
    }
  }

  lemma OrphanRemoved(env: Env, config: Config, disk: Disk, key: (Text, Component))
    requires DiskSound(env, config, disk) && !Named(disk.metas, key)
    ensures DiskSound(env, config, disk.(files := disk.files - {key}))
  {
    hide RecordValid, SizeOf, Sizes, Total, Held, OneEach;
    var disk' := disk.(files := disk.files - {key});
    forall id | id in disk.metas ensures MetaSound(env, config, disk', id) {
      assert MetaSound(env, config, disk, id);
      HeldWithout(env, disk.files, disk.metas[id], key);
    }
  }

  lemma HeldWithout(env: Env, files: map<(Text, Component), Text>, record: Record, key: (Text, Component))
    requires Held(env, files, record) && (key.0 == record.id ==> record.input.At(key.1).None?)
    ensures Held(env, files - {key}, record)
  {
    hide Describes, Input.At;
  }

  lemma SoundUpToClock(env: Env, config: Config, disk: Disk, clock: int)
    requires 0 <= disk.clock
    ensures DiskSound(env, config, disk.(clock := clock)) ==> DiskSound(env, config, disk)
  {
    hide RecordValid, SizeOf, Sizes, Total, Held;
    var disk' := disk.(clock := clock);
    if DiskSound(env, config, disk') {
      forall id | id in disk.metas ensures MetaSound(env, config, disk, id) {
        assert MetaSound(env, config, disk', id);
      }
    }
  }

  /** A root that an opening at `now` finds nothing to do on. */
  ghost predicate AtRest(disk: Disk, now: int)
  {
    disk.temps == 0 && NoOrphans(disk) && Live(disk.metas, now) == disk.metas
  }

  /** An opened root: swept at `now`, its mark moved only if that removed something. */
  ghost predicate Recovered(s: Snap, now: int, s': Snap)
  {
    && s'.trusted && Lasts(s, s')
    && s'.metas == Live(s.metas, now) && s'.clock == if s'.metas == s.metas then s.clock else now
  }

  lemma FailedOpenStep(config: Config, s: Snap, reading: int, second: int, error: ArtifactError, s': Snap)
    requires Lasts(s, s') && !s'.trusted && s'.clock == s'.saved && s'.entries <= Max(s.entries + 1, Ceiling(config))
    requires error == Corrupt ==> s.entries > Ceiling(config)
    requires error == Clock ==> reading < 0 || second < 0
    ensures OpenStep(config, s, reading, second, Failed(error), s')
  {
    hide Lasting, Live;
  }

  lemma OpenedStep(config: Config, s: Snap, raised: Snap, reading: int, second: int, s': Snap)
    requires raised.metas == s.metas && raised.clock == Max(reading, s.saved) && Lasts(s, s')
    requires 0 <= reading && 0 <= second && s.entries <= Ceiling(config)
    requires Recovered(raised, Max(second, raised.clock), s')
    ensures OpenStep(config, s, reading, second, Opened, s')
  {
    hide Lasting, Live;
  }

  lemma PartGrows(metas: map<Text, Record>, left: set<Text>, id: Text)
    requires id in left && left <= metas.Keys
    ensures (metas - left)[id := metas[id]] == metas - (left - {id})
  {
  }

  lemma WideEnough(env: Env, config: Config)
    requires ConfigValid(env, config)
    ensures config.maxBytes <= U64_MAX && config.maxRecordBytes <= U64_MAX
  {
    hide Routes, RetentionValid;
  }

  lemma NothingIndexed(env: Env)
    ensures Indexes(env, map[], map[], 0, map[])
  {
    assert Sizes(env, map[]) == map[];
  }

  lemma NotOneEach(metas: map<Text, Record>, a: Text, b: Text)
    requires a in metas && b in metas && a != b && metas[a].evaluation == metas[b].evaluation
    ensures !OneEach(metas)
  {
  }

  lemma SizeWithinRecord(env: Env, config: Config, disk: Disk, id: Text)
    requires id in disk.metas && config.maxRecordBytes <= U64_MAX
    ensures MetaSound(env, config, disk, id) ==> SizeOf(env, disk.metas[id]) <= U64_MAX
  {
    hide RecordValid, Held, SizeOf;
  }

  lemma SoundId(env: Env, config: Config, disk: Disk, id: Text)
    requires id in disk.metas && MetaSound(env, config, disk, id)
    ensures disk.metas[id].id == id
  {
    hide RecordValid, Held, SizeOf;
  }

  lemma PartTotal(env: Env, metas: map<Text, Record>, part: map<Text, Record>, record: Record)
    requires record.id in metas && record == metas[record.id] && record.id !in part
    requires part.Keys <= metas.Keys && forall id :: id in part ==> part[id] == metas[id]
    ensures Total(Sizes(env, part)) + SizeOf(env, record) <= Total(Sizes(env, metas))
  {
    hide SizeOf, Total;
    TotalWith(env, part, record);
    TotalOfPart(Sizes(env, part[record.id := record]), Sizes(env, metas));
  }

  lemma IndexedOnce(
    env: Env, records: map<Text, Stored>, evaluations: map<Text, Text>, bytes: nat, metas: map<Text, Record>)
    requires Indexes(env, records, evaluations, bytes, metas)
    ensures OneEach(metas)
  {
    hide Mirrors, Sizes, Total;
  }

  ghost predicate AddedFor(
    id: Text, payloads: map<Component, Text>, files: map<(Text, Component), Text>, files': map<(Text, Component), Text>)
  {
    && AgreeOff(id, files, files')
    && (forall c :: (id, c) in files' <==> c in payloads)
    && (forall c :: c in payloads ==> files'[(id, c)] == payloads[c])
  }

  /** Nothing was added but payloads of this record. */
  ghost predicate AddedWithin(
    id: Text, payloads: map<Component, Text>, files: map<(Text, Component), Text>, files': map<(Text, Component), Text>)
  {
    forall key: (Text, Component) :: key in files' ==> key in files || (key.0 == id && key.1 in payloads)
  }

  /** The payloads of the first components are written, and nothing else is. */
  ghost predicate FilledTo(
    id: Text, payloads: map<Component, Text>, count: nat, files: map<(Text, Component), Text>,
    files': map<(Text, Component), Text>)
    requires count <= |COMPONENTS|
  {
    && AgreeOff(id, files, files')
    && (forall c :: (id, c) in files' <==> c in payloads && c in COMPONENTS[..count])
    && (forall c :: (id, c) in files' ==> files'[(id, c)] == payloads[c])
  }

  lemma NothingFilled(id: Text, payloads: map<Component, Text>, files: map<(Text, Component), Text>)
    requires forall c :: (id, c) !in files
    ensures FilledTo(id, payloads, 0, files, files)
  {
  }

  lemma FilledNext(
    id: Text, payloads: map<Component, Text>, i: nat, files: map<(Text, Component), Text>,
    files': map<(Text, Component), Text>)
    requires i < |COMPONENTS| && FilledTo(id, payloads, i, files, files')
    ensures
      var c := COMPONENTS[i];
      && (id, c) !in files'
      && FilledTo(id, payloads, i + 1, files, if c in payloads then files'[(id, c) := payloads[c]] else files')
  {
    ListedOnce(i);
    assert COMPONENTS[..i + 1] == COMPONENTS[..i] + [COMPONENTS[i]];
  }

  lemma FilledWithin(
    id: Text, payloads: map<Component, Text>, i: nat, files: map<(Text, Component), Text>,
    files': map<(Text, Component), Text>)
    requires i <= |COMPONENTS| && FilledTo(id, payloads, i, files, files')
    ensures AddedWithin(id, payloads, files, files')
  {
    forall key | key in files' ensures key in files || (key.0 == id && key.1 in payloads) {
      if key.0 == id { assert (id, key.1) in files'; }
    }
  }

  lemma FilledAll(
    id: Text, payloads: map<Component, Text>, files: map<(Text, Component), Text>,
    files': map<(Text, Component), Text>)
    requires FilledTo(id, payloads, |COMPONENTS|, files, files')
    ensures AddedFor(id, payloads, files, files')
  {
    AllListed();
  }

  lemma StillWithin(
    id: Text, payloads: map<Component, Text>, files: map<(Text, Component), Text>,
    files': map<(Text, Component), Text>, files'': map<(Text, Component), Text>)
    requires AddedWithin(id, payloads, files, files') && files''.Keys <= files'.Keys
    ensures AddedWithin(id, payloads, files, files'')
  {
  }

  /** A record's write cut off anywhere leaves a root that the next scan still reads. */
  lemma CutEntries(
    env: Env, config: Config, before: Disk, after: Disk, record: Record, payloads: map<Component, Text>)
    requires NoOrphans(before) && Admissible(env, config, before, record) && Pays(env, record.input, payloads)
    requires DiskSound(env, config, after) && after.metas == before.metas && after.temps <= 1
    requires AddedWithin(record.id, payloads, before.files, after.files)
    ensures Entries(after) <= Ceiling(config)
  {
    hide DiskSound, InputValid, SizeOf, Sizes, Total, Pays, NoOrphans, AddedWithin, Entries, Ceiling;
    CutNamed(env, before, after, record, payloads);
    FillingEntries(env, config, after, record);
  }

  lemma CutNamed(env: Env, before: Disk, after: Disk, record: Record, payloads: map<Component, Text>)
    requires NoOrphans(before) && Pays(env, record.input, payloads) && record.id !in before.metas
    requires after.metas == before.metas && AddedWithin(record.id, payloads, before.files, after.files)
    ensures NoOrphans(after.(metas := after.metas[record.id := record]))
  {
    hide Named, Pays;
    forall key | key in after.files ensures Named(after.metas[record.id := record], key) {
      if key in before.files {
        NamedStill(before.metas, record, key);
      } else {
        PaidNames(env, before.metas, record, payloads, key.1);
      }
    }
  }

  lemma NamedStill(metas: map<Text, Record>, record: Record, key: (Text, Component))
    requires Named(metas, key) && record.id !in metas
    ensures Named(metas[record.id := record], key)
  {
    hide Input.At;
  }

  lemma PaidNames(env: Env, metas: map<Text, Record>, record: Record, payloads: map<Component, Text>, c: Component)
    requires Pays(env, record.input, payloads) && c in payloads
    ensures Named(metas[record.id := record], (record.id, c))
  {
    hide Input.At, Describes;
    assert record.input.At(c).Some?;
  }

  /** A record the root has room and a free name for. */
  ghost predicate Admissible(env: Env, config: Config, disk: Disk, record: Record)
  {
    && record.id !in disk.metas && RecordValid(env, config, record)
    && env.metadataBytes(record) <= MAX_RECORD_METADATA_BYTES && SizeOf(env, record) <= config.maxRecordBytes
    && (forall id :: id in disk.metas ==> disk.metas[id].evaluation != record.evaluation)
    && |disk.metas| < config.maxRecords
    && Total(Sizes(env, disk.metas)) + SizeOf(env, record) <= config.maxBytes
  }

  /** The record this call would make is invalid, or does not fit beside the live ones. */
  ghost predicate Unfit(env: Env, config: Config, disk: Disk, evaluation: Text, now: int, input: Input)
  {
    var made := NewRecord(env, config, evaluation, now, input);
    made.Err? || !Admissible(env, config, disk, made.value)
  }

  lemma ListedOnce(i: nat)
    requires i < |COMPONENTS|
    ensures COMPONENTS[i] !in COMPONENTS[..i]
  {
  }

  lemma {:induction false} BlobTotalOfPrefix(input: Input, n: nat)
    requires n <= |COMPONENTS|
    ensures BlobTotal(input, COMPONENTS[..n]) <= BlobTotal(input, COMPONENTS)
    decreases |COMPONENTS| - n
  {
    hide Input.At;
    if n < |COMPONENTS| {
      assert COMPONENTS[..n + 1][..n] == COMPONENTS[..n];
      BlobTotalOfPrefix(input, n + 1);
    } else {
      assert COMPONENTS[..n] == COMPONENTS;
    }
  }

  lemma NoBlobs(input: Input)
    ensures BlobTotal(input, COMPONENTS[..0]) == 0
  {
  }

  lemma OneMoreBlob(input: Input, i: nat)
    requires i < |COMPONENTS|
    ensures
      var at := input.At(COMPONENTS[i]);
      BlobTotal(input, COMPONENTS[..i + 1])
      == BlobTotal(input, COMPONENTS[..i]) + (if at.Some? then at.value.length else 0)
    ensures BlobTotal(input, COMPONENTS[..i + 1]) <= BlobTotal(input, COMPONENTS)
  {
    hide Input.At;
    assert COMPONENTS[..i + 1][..i] == COMPONENTS[..i];
    BlobTotalOfPrefix(input, i + 1);
  }

  lemma NoFilesFor(disk: Disk, id: Text)
    requires NoOrphans(disk) && id !in disk.metas
    ensures forall c :: (id, c) !in disk.files
  {
    hide Input.At;
  }

  lemma NewRecordHeld(env: Env, before: Disk, written: Disk, record: Record, payloads: map<Component, Text>)
    requires NoOrphans(before) && record.id !in before.metas && written.metas == before.metas
    requires AddedFor(record.id, payloads, before.files, written.files) && Pays(env, record.input, payloads)
    ensures Held(env, written.files, record)
    ensures NoOrphans(written.(metas := written.metas[record.id := record]))
  {
    hide NoOrphans, Pays;
    PaidIsHeld(env, before.files, written.files, record, payloads);
    PaidIsNamed(env, before, written, record, payloads);
  }

  lemma PaidIsHeld(
    env: Env, before: map<(Text, Component), Text>, written: map<(Text, Component), Text>, record: Record,
    payloads: map<Component, Text>)
    requires AddedFor(record.id, payloads, before, written) && Pays(env, record.input, payloads)
    ensures Held(env, written, record)
  {
    hide Describes, Input.At;
    forall c | record.input.At(c).Some?
      ensures (record.id, c) in written && Describes(env.sha, record.input.At(c).value, written[(record.id, c)])
    {
      assert c in payloads;
    }
  }

  lemma PaidIsNamed(env: Env, before: Disk, written: Disk, record: Record, payloads: map<Component, Text>)
    requires NoOrphans(before) && record.id !in before.metas && written.metas == before.metas
    requires AddedFor(record.id, payloads, before.files, written.files) && Pays(env, record.input, payloads)
    ensures NoOrphans(written.(metas := written.metas[record.id := record]))
  {
    hide Describes, Input.At;
    forall key | key in written.files
      ensures key.0 in written.metas[record.id := record]
      ensures written.metas[record.id := record][key.0].input.At(key.1).Some?
    {
      if key.0 == record.id { assert (record.id, key.1) in written.files; } else { assert key in before.files; }
    }
  }

  lemma NewRecordMeans(env: Env, config: Config, evaluation: Text, now: int, input: Input)
    ensures NewRecord(env, config, evaluation, now, input).Err? ==>
      NewRecord(env, config, evaluation, now, input).error in {Clock, Corrupt}
    ensures NewRecord(env, config, evaluation, now, input).Ok? ==>
      var record := NewRecord(env, config, evaluation, now, input).value;
      && RecordValid(env, config, record) && record.createdAt == now && record.input == input
      && record.evaluation == evaluation && record.id == ExpectedId(env, evaluation, input)
  {
    hide ExpectedId, InputValid;
  }

  lemma EnteredLive(config: Config, s: Snap, reading: int, now: int, s': Snap)
    requires Entered(config, s, reading, now, s')
    ensures s'.metas == Live(s.metas, now)
  {
  }

  lemma ReboundAt(env: Env, live: map<Text, Record>, op: Op, id: Text)
    requires op.Retain? && id in live
    requires (live[id].evaluation == op.evaluation) != (id == ExpectedId(env, op.evaluation, op.input))
    ensures Rebound(env, live, op)
  {
    hide ExpectedId;
  }

  lemma RetainedAgainStep(env: Env, config: Config, s: Snap, reading: int, now: int, op: Op, out: Outcome, s': Snap)
    requires Entered(config, s, reading, now, s') && op.Retain?
    requires
      var id := ExpectedId(env, op.evaluation, op.input);
      id in s'.metas && s'.metas[id].evaluation == op.evaluation && out == Retained(RefOf(config, s'.metas[id]))
    requires NewRecord(env, config, op.evaluation, now, op.input).Ok?
    ensures Step(env, config, s, reading, op, out, s')
  {
    hide ExpectedId, RefOf, Live, NewRecord;
    EnteredMeans(config, s, reading, now, s');
  }

  lemma RetainedNewStep(env: Env, config: Config, s: Snap, reading: int, now: int, op: Op, record: Record, s': Snap)
    requires s.trusted && s'.trusted && 0 <= reading && now == Max(reading, s.clock) && s'.clock == now
    requires Onward(config, s, s')
    requires op == Retain(record.evaluation, record.input) && record.createdAt == now
    requires NewRecord(env, config, op.evaluation, now, op.input).Ok?
    requires record.id == ExpectedId(env, record.evaluation, record.input)
    requires record.id !in Live(s.metas, now) && s'.metas == Live(s.metas, now)[record.id := record]
    requires forall id :: id in Live(s.metas, now) ==> s.metas[id].evaluation != record.evaluation
    ensures Step(env, config, s, reading, op, Retained(RefOf(config, record)), s')
  {
    hide ExpectedId, RefOf, NewRecord, Onward, RetainAnswer, Live, Swept;
    NewAnswer(env, config, s, now, op, record, s');
  }

  lemma NewAnswer(env: Env, config: Config, s: Snap, now: int, op: Op, record: Record, s': Snap)
    requires s'.clock == now && op == Retain(record.evaluation, record.input) && record.createdAt == now
    requires NewRecord(env, config, op.evaluation, now, op.input).Ok?
    requires record.id == ExpectedId(env, record.evaluation, record.input)
    requires record.id !in Live(s.metas, now) && s'.metas == Live(s.metas, now)[record.id := record]
    requires forall id :: id in Live(s.metas, now) ==> s.metas[id].evaluation != record.evaluation
    ensures RetainAnswer(env, config, s, now, op, RefOf(config, record), s')
  {
    hide ExpectedId, RefOf, NewRecord, Swept;
  }

  lemma PoisonedStep(env: Env, config: Config, s: Snap, reading: int, op: Op, error: ArtifactError, s': Snap)
    requires s.trusted && !s'.trusted && Onward(config, s, s') && error != Conflict
    ensures Step(env, config, s, reading, op, Failed(error), s')
  {
  }

  lemma CountsAgree(records: map<Text, Stored>, metas: map<Text, Record>)
    requires records.Keys == metas.Keys
    ensures |records| == |metas|
  {
    assert |records| == |records.Keys| && |metas| == |metas.Keys|;
  }

  lemma CapacityBounds(env: Env, config: Config, disk: Disk)
    requires ConfigValid(env, config) && DiskSound(env, config, disk)
    ensures |disk.metas| <= config.maxRecords && config.maxBytes <= U64_MAX && config.maxRecordBytes <= U64_MAX
  {
    hide MetaSound, Routes, RetentionValid, Sizes, Total;
  }

  lemma AdmissibleMeans(env: Env, config: Config, disk: Disk, record: Record)
    requires Admissible(env, config, disk, record)
    ensures record.id !in disk.metas && RecordValid(env, config, record)
    ensures forall id :: id in disk.metas ==> disk.metas[id].evaluation != record.evaluation
  {
    hide RecordValid, SizeOf, Sizes, Total;
  }

  lemma StoredEvaluations(metas: map<Text, Record>, live: map<Text, Record>, now: int, record: Record)
    requires live == Live(metas, now) && forall id :: id in live ==> live[id].evaluation != record.evaluation
    ensures forall id :: id in Live(metas, now) ==> metas[id].evaluation != record.evaluation
  {
  }

  lemma AdmissibleLater(env: Env, config: Config, before: Disk, after: Disk, record: Record)
    requires Admissible(env, config, before, record) && after.metas == before.metas
    ensures Admissible(env, config, after, record)
  {
    hide RecordValid, SizeOf, Sizes, Total;
  }

  lemma IndexesWith(
    env: Env, records: map<Text, Stored>, evaluations: map<Text, Text>, bytes: nat, metas: map<Text, Record>,
    record: Record, size: nat)
    requires Indexes(env, records, evaluations, bytes, metas) && record.id !in metas
    requires record.evaluation !in evaluations && size == SizeOf(env, record)
    ensures Indexes(
      env, records[record.id := Stored(record, size)], evaluations[record.evaluation := record.id], bytes + size,
      metas[record.id := record])
  {
    hide SizeOf, Sizes, Total, Inverse, Mirrors;
    TotalWith(env, metas, record);
    InverseWith(evaluations, metas, record);
    MirrorsWith(env, records, metas, record);
  }

  lemma InverseWith(evaluations: map<Text, Text>, metas: map<Text, Record>, record: Record)
    requires Inverse(evaluations, metas) && record.id !in metas && record.evaluation !in evaluations
    ensures Inverse(evaluations[record.evaluation := record.id], metas[record.id := record])
  {
  }

  lemma MirrorsWith(env: Env, records: map<Text, Stored>, metas: map<Text, Record>, record: Record)
    requires Mirrors(env, records, metas)
    ensures Mirrors(env, records[record.id := Stored(record, SizeOf(env, record))], metas[record.id := record])
  {
    hide SizeOf;
  }

  lemma RefusedStep(env: Env, config: Config, s: Snap, reading: int, op: Op, error: ArtifactError, s': Snap)
    requires Refused(config, s, s') && error != Conflict
    requires s.trusted && s'.trusted && 0 <= reading ==>
      Served(env, config, Max(reading, s.clock), op, Failed(error), s')
    ensures Step(env, config, s, reading, op, Failed(error), s')
  {
    hide Live, Rebound, OneEach, Served;
  }

  lemma UnchangedStep(store: FileArtifactStore, reading: int, op: Op, error: ArtifactError)
    requires store.Valid() && error != Conflict && op.Read? && op.id !in store.disk.metas
    ensures Step(store.env, store.config, store.View(), reading, op, Failed(error), store.View())
  {
    hide DiskSound, ConfigValid, Indexes, NoOrphans, Step, Entries;
    if store.trusted { TidyEntries(store.env, store.config, store.disk); }
    RefusedStep(store.env, store.config, store.View(), reading, op, error, store.View());
  }

  lemma LateFailure(
    env: Env, config: Config, s: Snap, reading: int, now: int, op: Op, error: ArtifactError, s': Snap)
    requires Entered(config, s, reading, now, s') && Served(env, config, now, op, Failed(error), s')
    requires op.Retain? && error == Conflict ==> Rebound(env, Live(s.metas, now), op)
    ensures Step(env, config, s, reading, op, Failed(error), s')
  {
    hide Live, Rebound, Answer, Swept, Entered, Served;
    EnteredAt(config, s, reading, now, s', []);
    EnteredMeans(config, s, reading, now, s');
    FailedAnswer(env, config, s, now, op, error, s');
  }

  lemma FailedAnswer(env: Env, config: Config, s: Snap, now: int, op: Op, error: ArtifactError, s': Snap)
    requires op.Retain? && error == Conflict ==> Rebound(env, Live(s.metas, now), op)
    ensures Answer(env, config, s, now, op, Failed(error), s')
  {
    hide Live, Rebound;
  }

  lemma AnsweredStep(
    env: Env, config: Config, s: Snap, reading: int, now: int, op: Op, out: Outcome, s': Snap)
    requires Entered(config, s, reading, now, s') && !out.Retained? && !out.Failed?
    requires Answer(env, config, s, now, op, out, s')
    ensures Step(env, config, s, reading, op, out, s')
  {
    hide Answer, Served;
    EnteredMeans(config, s, reading, now, s');
    AnswerServes(env, config, s, now, op, out, s');
  }

  lemma AnswerServes(env: Env, config: Config, s: Snap, now: int, op: Op, out: Outcome, s': Snap)
    requires Answer(env, config, s, now, op, out, s') && !out.Failed?
    ensures Served(env, config, now, op, out, s')
  {
    hide Live, RetainAnswer, Answers, Rebound, Describes, Sizes, Total, ExpectedId, RefOf, NewRecord;
  }

  lemma StoredIdsAreValid(env: Env, config: Config, disk: Disk, id: Text)
    requires DiskSound(env, config, disk)
    ensures id in disk.metas ==> ValidId(id)
  {
    hide DiskSound, Held;
    if id in disk.metas { FilesAreOwn(env, config, disk, id); }
  }

  /** The effective time of a call, and what its sweep released. */
  datatype Entry = Entry(now: int, removedRecords: nat, removedBytes: nat)

  ghost predicate Released(env: Env, s: Snap, entry: Entry, s': Snap)
  {
    && entry.removedRecords == |s.metas| - |s'.metas|
    && entry.removedBytes == Total(Sizes(env, s.metas)) - Total(Sizes(env, s'.metas))
  }

  ghost predicate Entered(config: Config, s: Snap, reading: int, now: int, s': Snap)
  {
    && s.trusted && s'.trusted && 0 <= reading && now == Max(reading, s.clock) && Onward(config, s, s')
    && s'.metas == Live(s.metas, now) && s'.clock == if s'.metas == s.metas then s.clock else now
  }

  ghost predicate Refused(config: Config, s: Snap, s': Snap)
  {
    Onward(config, s, s') && (s' == s || (s.trusted && !s'.trusted))
  }

  lemma EnteredMeans(config: Config, s: Snap, reading: int, now: int, s': Snap)
    requires Entered(config, s, reading, now, s')
    ensures Swept(s, now, s') && Onward(config, s, s') && s.trusted && s'.trusted && 0 <= reading
    ensures forall id :: id in s'.metas ==> s'.metas[id].expiresAt > now
  {
  }

  lemma EnteredAt(config: Config, s: Snap, reading: int, now: int, s': Snap, id: Text)
    requires Entered(config, s, reading, now, s')
    ensures s.trusted && s'.trusted && 0 <= reading && now == Max(reading, s.clock) && s'.clock <= now
    ensures Onward(config, s, s')
    ensures id in s'.metas ==> s'.metas[id].expiresAt > now
  {
  }

  lemma ReferenceOfStored(env: Env, config: Config, disk: Disk, id: Text)
    requires ConfigValid(env, config) && DiskSound(env, config, disk) && id in disk.metas
    ensures CheckedReference(env, config, disk.metas[id]) == Ok(RefOf(config, disk.metas[id]))
  {
    hide ConfigValid, RecordValid, DiskSound;
    FilesAreOwn(env, config, disk, id);
    ReferenceNeverFails(env, config, disk.metas[id]);
  }

  lemma HeldAt(env: Env, files: map<(Text, Component), Text>, record: Record, c: Component)
    requires Held(env, files, record) && record.input.At(c).Some?
    ensures (record.id, c) in files && Describes(env.sha, record.input.At(c).value, files[(record.id, c)])
  {
    hide Describes;
  }

  lemma RemovedSoFar(metas: map<Text, Record>, expired: set<Text>, left: set<Text>)
    ensures left == expired ==> metas - (expired - left) == metas
    ensures left == {} ==> metas - (expired - left) == metas - expired
  {
  }

  ghost predicate AllEnded(metas: map<Text, Record>, ids: set<Text>, clock: int)
  {
    forall id :: id in ids ==> id in metas && metas[id].expiresAt <= clock
  }

  lemma EndedNext(
    metas: map<Text, Record>, metas': map<Text, Record>, expired: set<Text>, left: set<Text>, id: Text, clock: int)
    requires AllEnded(metas, expired, clock) && metas' == metas - (expired - left) && id in left && left <= expired
    ensures id in metas' && metas'[id].expiresAt <= clock
  {
  }

  lemma RemovedNext(metas: map<Text, Record>, expired: set<Text>, left: set<Text>, id: Text)
    requires id in left && left <= expired <= metas.Keys
    ensures id in metas - (expired - left)
    ensures metas - (expired - left) - {id} == metas - (expired - (left - {id}))
  {
  }

  /** What a caller sees of a valid store is a sound snapshot. */
  lemma SoundView(store: FileArtifactStore)
    requires store.Valid() && Aged(store.disk.clock, store.disk.metas)
    ensures SnapSound(store.env, store.config, store.View())
  {
    hide ConfigValid, RecordValid, Held, SizeOf, Sizes, Total, Indexes, NoOrphans, OneEach, Aged, Entries;
    var disk := store.disk;
    forall id | id in disk.metas
      ensures disk.metas[id].id == id && RecordValid(store.env, store.config, disk.metas[id])
    {
      assert MetaSound(store.env, store.config, disk, id);
    }
    if store.trusted { TidyEntries(store.env, store.config, disk); }
  }

  lemma SoundClock(env: Env, config: Config, disk: Disk)
    requires DiskSound(env, config, disk)
    ensures 0 <= disk.clock
  {
  }

  lemma RecordsMirror(
    env: Env, records: map<Text, Stored>, evaluations: map<Text, Text>, bytes: nat, metas: map<Text, Record>)
    requires Indexes(env, records, evaluations, bytes, metas)
    ensures records.Keys == metas.Keys && bytes == Total(Sizes(env, metas))
    ensures forall id :: id in metas ==> records[id] == Stored(metas[id], SizeOf(env, metas[id]))
  {
    hide SizeOf, Sizes, Total, Inverse;
  }

  lemma EvaluationFinds(
    env: Env, records: map<Text, Stored>, evaluations: map<Text, Text>, bytes: nat, metas: map<Text, Record>, e: Text)
    requires Indexes(env, records, evaluations, bytes, metas)
    ensures e in evaluations ==>
      evaluations[e] in metas && evaluations[e] in records && records[evaluations[e]].metadata == metas[evaluations[e]]
      && metas[evaluations[e]].evaluation == e
    ensures e !in evaluations ==> forall id :: id in metas ==> metas[id].evaluation != e
    ensures e in evaluations ==> forall id :: id in metas && metas[id].evaluation == e ==> id == evaluations[e]
  {
    hide SizeOf, Sizes, Total;
  }

  function ExpiredIn(records: map<Text, Stored>, now: int): set<Text>
  {
    set id | id in records && records[id].metadata.expiresAt <= now
  }

  lemma ExpiredMirrors(
    env: Env, records: map<Text, Stored>, evaluations: map<Text, Text>, bytes: nat, metas: map<Text, Record>, now: int)
    requires Indexes(env, records, evaluations, bytes, metas)
    ensures ExpiredIn(records, now) <= metas.Keys
    ensures AllEnded(metas, ExpiredIn(records, now), now)
    ensures Live(metas, now) == metas - ExpiredIn(records, now)
    ensures Live(metas, now) == metas <==> ExpiredIn(records, now) == {}
  {
    hide Indexes, SizeOf, Sizes, Total, Live;
    RecordsMirror(env, records, evaluations, bytes, metas);
    NothingExpired(metas, now, ExpiredIn(records, now));
  }

  lemma NothingExpired(metas: map<Text, Record>, now: int, expired: set<Text>)
    requires expired == set id | id in metas && metas[id].expiresAt <= now
    ensures Live(metas, now) == metas - expired
    ensures Live(metas, now) == metas <==> expired == {}
  {
    if expired != {} {
      var id :| id in expired;
      assert id in metas && id !in Live(metas, now);
    }
  }

  lemma FilesAreOwn(env: Env, config: Config, disk: Disk, id: Text)
    requires DiskSound(env, config, disk) && id in disk.metas
    ensures disk.metas[id].id == id && RecordValid(env, config, disk.metas[id])
    ensures Held(env, disk.files, disk.metas[id])
  {
    hide RecordValid, Held;
    assert MetaSound(env, config, disk, id);
  }

  lemma IndexesWithout(
    env: Env, records: map<Text, Stored>, evaluations: map<Text, Text>, bytes: nat, metas: map<Text, Record>, id: Text)
    requires Indexes(env, records, evaluations, bytes, metas) && id in metas
    ensures id in records && records[id] == Stored(metas[id], SizeOf(env, metas[id])) && records[id].bytes <= bytes
    ensures Indexes(env, records - {id}, evaluations - {metas[id].evaluation}, bytes - records[id].bytes, metas - {id})
  {
    hide SizeOf, Sizes, Total, Inverse, Mirrors;
    TotalWithout(env, metas, id);
    InverseWithout(evaluations, metas, id);
    MirrorsWithout(env, records, metas, id);
  }

  lemma MirrorsWithout(env: Env, records: map<Text, Stored>, metas: map<Text, Record>, id: Text)
    requires Mirrors(env, records, metas) && id in metas
    ensures id in records && records[id] == Stored(metas[id], SizeOf(env, metas[id]))
    ensures Mirrors(env, records - {id}, metas - {id})
  {
    hide SizeOf;
  }

  lemma InverseWithout(evaluations: map<Text, Text>, metas: map<Text, Record>, id: Text)
    requires Inverse(evaluations, metas) && id in metas
    ensures Inverse(evaluations - {metas[id].evaluation}, metas - {id})
  {
  }
}

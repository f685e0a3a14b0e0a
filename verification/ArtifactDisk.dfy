/** What the artifact root holds on disk, and which single writes keep it sound. */
module ArtifactDisk {
  import opened Machine
  import opened Bytes
  import opened Totals
  import opened Deliveries
  import opened ArtifactModel

  /**
   * The saved mark, the metadata and payload files, each whole or absent, and the
   * temporary directories that writes cut off by a crash left behind.
   */
  datatype Disk = Disk(clock: int, metas: map<Text, Record>, files: map<(Text, Component), Text>, temps: nat)

  /** Everything in the directory, with its lock and its root state. */
  function Entries(disk: Disk): nat { 2 + |disk.metas| + |disk.files| + disk.temps }

  /** The most entries a scan reads before it gives up. */
  function Ceiling(config: Config): nat { 6 * config.maxRecords + 3 }

  /** The blob lengths of the listed components. */
  function BlobTotal(input: Input, components: seq<Component>): nat
  {
    if components == [] then 0
    else
      var last := components[|components| - 1];
      BlobTotal(input, components[..|components| - 1])
      + (if input.At(last).Some? then input.At(last).value.length else 0)
  }

  function SizeOf(env: Env, record: Record): nat
  {
    env.metadataBytes(record) + BlobTotal(record.input, COMPONENTS)
  }

  ghost function Sizes(env: Env, metas: map<Text, Record>): map<Text, nat>
  {
    map id | id in metas :: SizeOf(env, metas[id])
  }

  /** Every component the record names is on disk, byte for byte. */
  ghost predicate Held(env: Env, files: map<(Text, Component), Text>, record: Record)
  {
    forall c {:trigger record.input.At(c)} :: record.input.At(c).Some? ==>
      (record.id, c) in files && Describes(env.sha, record.input.At(c).value, files[(record.id, c)])
  }

  ghost predicate MetaSound(env: Env, config: Config, disk: Disk, id: Text)
    requires id in disk.metas
  {
    var record := disk.metas[id];
    && record.id == id && RecordValid(env, config, record) && Held(env, disk.files, record)
    && env.metadataBytes(record) <= MAX_RECORD_METADATA_BYTES && SizeOf(env, record) <= config.maxRecordBytes
  }

  ghost predicate OneEach(metas: map<Text, Record>)
  {
    forall a, b :: a in metas && b in metas && metas[a].evaluation == metas[b].evaluation ==> a == b
  }

  /** Every record on disk is whole, and both capacities hold. */
  ghost predicate DiskSound(env: Env, config: Config, disk: Disk)
  {
    && 0 <= disk.clock
    && (forall id :: id in disk.metas ==> MetaSound(env, config, disk, id))
    && OneEach(disk.metas)
    && |disk.metas| <= config.maxRecords
    && Total(Sizes(env, disk.metas)) <= config.maxBytes
  }

  // ----- Single durable writes -----

  lemma ClockWritten(env: Env, config: Config, disk: Disk, clock: int)
    requires DiskSound(env, config, disk) && 0 <= clock
    ensures DiskSound(env, config, disk.(clock := clock))
  {
    hide RecordValid, Held, SizeOf;
    forall id | id in disk.metas ensures MetaSound(env, config, disk.(clock := clock), id) {
      assert MetaSound(env, config, disk, id);
    }
  }

  /** Leftover temporary directories are invisible. */
  lemma TempsLeft(env: Env, config: Config, disk: Disk, temps: nat)
    ensures DiskSound(env, config, disk.(temps := temps)) <==> DiskSound(env, config, disk)
  {
    hide RecordValid, Held, SizeOf, Sizes, Total, OneEach;
    var disk' := disk.(temps := temps);
    forall id | id in disk.metas
      ensures MetaSound(env, config, disk', id) <==> MetaSound(env, config, disk, id)
    {
    }
  }

  /** The two directories hold the same payloads of every other record. */
  ghost predicate AgreeOff(id: Text, files: map<(Text, Component), Text>, files': map<(Text, Component), Text>)
  {
    forall key: (Text, Component) :: key.0 != id ==>
      (key in files' <==> key in files) && (key in files' ==> files'[key] == files[key])
  }

  /** Payload files without metadata are invisible. */
  lemma FilesWritten(env: Env, config: Config, disk: Disk, id: Text, files: map<(Text, Component), Text>)
    requires DiskSound(env, config, disk) && id !in disk.metas && AgreeOff(id, disk.files, files)
    ensures DiskSound(env, config, disk.(files := files))
  {
    hide RecordValid, SizeOf, Sizes, Total, Held, OneEach, AgreeOff;
    var disk' := disk.(files := files);
    forall other | other in disk.metas ensures MetaSound(env, config, disk', other) {
      assert MetaSound(env, config, disk, other);
      HeldElsewhere(env, disk.files, files, disk.metas[other], id);
    }
  }

  lemma HeldElsewhere(
    env: Env, files: map<(Text, Component), Text>, files': map<(Text, Component), Text>, record: Record, id: Text)
    requires Held(env, files, record) && record.id != id && AgreeOff(id, files, files')
    ensures Held(env, files', record)
  {
    hide Describes, Input.At;
    forall c | record.input.At(c).Some?
      ensures (record.id, c) in files' && Describes(env.sha, record.input.At(c).value, files'[(record.id, c)])
    {
      assert (record.id, c) in files;
    }
  }

  /** Taking a file away takes one entry away. */
  lemma FewerFiles(files: map<(Text, Component), Text>, key: (Text, Component))
    requires key in files
    ensures |files - {key}| == |files| - 1
  {
    assert (files - {key}).Keys == files.Keys - {key};
    assert |files - {key}| == |(files - {key}).Keys| && |files| == |files.Keys|;
  }

  lemma TotalWith(env: Env, metas: map<Text, Record>, record: Record)
    requires record.id !in metas
    ensures Total(Sizes(env, metas[record.id := record])) == Total(Sizes(env, metas)) + SizeOf(env, record)
    ensures |metas[record.id := record]| == |metas| + 1
  {
    hide SizeOf, Total, Sizes;
    assert metas[record.id := record].Keys == metas.Keys + {record.id};
    SizesWith(env, metas, record.id, record);
    TotalPut(Sizes(env, metas), record.id, SizeOf(env, record));
  }

  lemma SizesWith(env: Env, metas: map<Text, Record>, id: Text, record: Record)
    ensures Sizes(env, metas[id := record]) == Sizes(env, metas)[id := SizeOf(env, record)]
    ensures id !in metas ==> id !in Sizes(env, metas)
  {
    hide SizeOf;
  }

  lemma SizesWithout(env: Env, metas: map<Text, Record>, id: Text)
    ensures Sizes(env, metas - {id}) == Sizes(env, metas) - {id}
    ensures id in metas ==> id in Sizes(env, metas) && Sizes(env, metas)[id] == SizeOf(env, metas[id])
  {
    hide SizeOf;
  }

  lemma TotalWithout(env: Env, metas: map<Text, Record>, id: Text)
    requires id in metas
    ensures Total(Sizes(env, metas - {id})) == Total(Sizes(env, metas)) - SizeOf(env, metas[id])
    ensures |metas - {id}| == |metas| - 1
  {
    hide SizeOf, Total, Sizes;
    assert (metas - {id}).Keys == metas.Keys - {id};
    SizesWithout(env, metas, id);
    TotalSplit(Sizes(env, metas), id);
  }

  lemma MetaWritten(env: Env, config: Config, disk: Disk, record: Record)
    requires DiskSound(env, config, disk) && record.id !in disk.metas
    requires RecordValid(env, config, record) && Held(env, disk.files, record)
    requires env.metadataBytes(record) <= MAX_RECORD_METADATA_BYTES && SizeOf(env, record) <= config.maxRecordBytes
    requires forall id :: id in disk.metas ==> disk.metas[id].evaluation != record.evaluation
    requires |disk.metas| < config.maxRecords
    requires Total(Sizes(env, disk.metas)) + SizeOf(env, record) <= config.maxBytes
    ensures DiskSound(env, config, disk.(metas := disk.metas[record.id := record]))
  {
    hide RecordValid, Held, SizeOf, Sizes, Total, OneEach;
    var disk' := disk.(metas := disk.metas[record.id := record]);
    TotalWith(env, disk.metas, record);
    OneMoreEach(disk.metas, record);
    forall id | id in disk'.metas ensures MetaSound(env, config, disk', id) {
      if id != record.id { assert MetaSound(env, config, disk, id); }
    }
  }

  lemma OneMoreEach(metas: map<Text, Record>, record: Record)
    requires OneEach(metas) && forall id :: id in metas ==> metas[id].evaluation != record.evaluation
    ensures OneEach(metas[record.id := record])
  {
  }

  lemma OneFewerEach(metas: map<Text, Record>, id: Text)
    requires OneEach(metas)
    ensures OneEach(metas - {id})
  {
  }

  lemma MetaRemoved(env: Env, config: Config, disk: Disk, id: Text)
    requires DiskSound(env, config, disk) && id in disk.metas
    ensures DiskSound(env, config, disk.(metas := disk.metas - {id}))
  {
    hide RecordValid, Held, SizeOf, Sizes, Total, OneEach;
    var disk' := disk.(metas := disk.metas - {id});
    TotalWithout(env, disk.metas, id);
    OneFewerEach(disk.metas, id);
    forall other | other in disk'.metas ensures MetaSound(env, config, disk', other) {
      assert MetaSound(env, config, disk, other);
    }
  }

  lemma EveryComponent(c: Component)
    ensures c in COMPONENTS
  {
    var i := match c
      case Report => 0 case Plan => 1 case Evidence => 2 case Assessment => 3 case Semantic => 4
      case PublicationPlan => 5 case PublicationEvidence => 6 case PublicationAssessment => 7
      case RelationPlan => 8 case RelationEvidence => 9 case RelationAssessment => 10
      case LocalePlan => 11 case LocaleEvidence => 12 case LocaleAssessment => 13;
    assert COMPONENTS[i] == c;
  }

  // ----- How many entries a tidy root has -----

  /** Every payload file belongs to a record that names it. */
  ghost predicate NoOrphans(disk: Disk)
  {
    forall key :: key in disk.files ==> Named(disk.metas, key)
  }

  predicate Named(metas: map<Text, Record>, key: (Text, Component))
  {
    key.0 in metas && metas[key.0].input.At(key.1).Some?
  }

  function Components(input: Input): set<Component>
  {
    set c: Component | input.At(c).Some?
  }

  /** A valid record names at most five payloads: its own five, or a report and one audit. */
  lemma FiveComponents(input: Input)
    requires InputValid(input)
    ensures |Components(input)| <= 5
  {
    var own := {Report, Plan, Evidence, Assessment, Semantic};
    var publication := {Report, PublicationPlan, PublicationEvidence, PublicationAssessment};
    var relation := {Report, RelationPlan, RelationEvidence, RelationAssessment};
    var locale := {Report, LocalePlan, LocaleEvidence, LocaleAssessment};
    if input.publication.Some? {
      assert Components(input) <= publication;
      Subset(Components(input), publication);
    } else if input.relation.Some? {
      assert Components(input) <= relation;
      Subset(Components(input), relation);
    } else if input.locale.Some? {
      assert Components(input) <= locale;
      Subset(Components(input), locale);
    } else {
      assert Components(input) <= own;
      Subset(Components(input), own);
    }
  }

  lemma Subset<T>(a: set<T>, b: set<T>)
    requires a <= b
    ensures |a| <= |b|
  {
    assert b == a + (b - a);
  }

  lemma {:induction false} KeysOfOne(id: Text, keys: set<(Text, Component)>, components: set<Component>)
    requires forall key :: key in keys ==> key.0 == id && key.1 in components
    ensures |keys| <= |components|
  {
    if keys != {} {
      var key :| key in keys;
      forall other | other in keys - {key} ensures other.1 in components - {key.1} {
        assert other.0 == key.0;
      }
      KeysOfOne(id, keys - {key}, components - {key.1});
    }
  }

  lemma {:induction false} FivePerRecord(keys: set<(Text, Component)>, metas: map<Text, Record>)
    requires forall key :: key in keys ==> Named(metas, key)
    requires forall id :: id in metas ==> InputValid(metas[id].input)
    ensures |keys| <= 5 * |metas|
    decreases |metas|
  {
    hide InputValid, Input.At;
    if metas == map[] {
      assert forall key :: key in keys ==> false;
    } else {
      var id :| id in metas;
      var own := set key | key in keys && key.0 == id;
      var rest := metas - {id};
      assert rest.Keys == metas.Keys - {id};
      forall key | key in own ensures key.0 == id && key.1 in Components(metas[id].input) {
        assert Named(metas, key);
      }
      KeysOfOne(id, own, Components(metas[id].input));
      FiveComponents(metas[id].input);
      forall key | key in keys - own ensures Named(rest, key) { assert Named(metas, key); }
      FivePerRecord(keys - own, rest);
      assert keys == own + (keys - own);
    }
  }

  lemma InputsAreValid(env: Env, config: Config, disk: Disk)
    requires DiskSound(env, config, disk)
    ensures forall id :: id in disk.metas ==> InputValid(disk.metas[id].input)
    ensures |disk.metas| <= config.maxRecords
  {
    hide InputValid, Held, SizeOf, Sizes, Total, OneEach;
    forall id | id in disk.metas ensures InputValid(disk.metas[id].input) {
      assert MetaSound(env, config, disk, id);
    }
  }

  /** A root without orphans has at most six entries to a record, its lock and its state. */
  lemma TidyEntries(env: Env, config: Config, disk: Disk)
    requires DiskSound(env, config, disk) && NoOrphans(disk)
    ensures Entries(disk) <= 6 * |disk.metas| + 2 + disk.temps
    ensures Entries(disk) <= Ceiling(config) - 1 + disk.temps
  {
    hide DiskSound, InputValid, Named;
    InputsAreValid(env, config, disk);
    FivePerRecord(disk.files.Keys, disk.metas);
    assert |disk.files| == |disk.files.Keys|;
  }

  /** While a record's payloads are being written the root still has room for it. */
  lemma FillingEntries(env: Env, config: Config, disk: Disk, record: Record)
    requires DiskSound(env, config, disk) && InputValid(record.input) && record.id !in disk.metas
    requires NoOrphans(disk.(metas := disk.metas[record.id := record]))
    requires |disk.metas| < config.maxRecords && disk.temps <= 1
    ensures Entries(disk) <= Ceiling(config)
  {
    hide DiskSound, InputValid, Named;
    var metas := disk.metas[record.id := record];
    OneMoreMeta(disk.metas, record);
    InputsAreValid(env, config, disk);
    forall id | id in metas ensures InputValid(metas[id].input) {
      if id != record.id { assert id in disk.metas; }
    }
    FivePerRecord(disk.files.Keys, metas);
    FilesCounted(disk.files);
  }

  lemma OneMoreMeta(metas: map<Text, Record>, record: Record)
    requires record.id !in metas
    ensures |metas[record.id := record]| == |metas| + 1
  {
    assert metas[record.id := record].Keys == metas.Keys + {record.id};
    assert |metas[record.id := record]| == |metas[record.id := record].Keys| && |metas| == |metas.Keys|;
  }

  lemma OneFewerMeta(metas: map<Text, Record>, id: Text)
    requires id in metas
    ensures |metas - {id}| == |metas| - 1
  {
    assert (metas - {id}).Keys == metas.Keys - {id};
    assert |metas - {id}| == |(metas - {id}).Keys| && |metas| == |metas.Keys|;
  }

  lemma FilesCounted(files: map<(Text, Component), Text>)
    ensures |files| == |files.Keys|
  {
  }

  // ----- What lasts -----

  /**
   * From one durable state to a later one: the mark never falls, only records that
   * ended by it are gone, and whatever is new was made no later than it.
   */
  ghost predicate Lasting(clock: int, metas: map<Text, Record>, clock': int, metas': map<Text, Record>)
  {
    && clock <= clock'
    && (forall id :: id in metas ==> (id in metas' && metas'[id] == metas[id]) || metas[id].expiresAt <= clock')
    && (forall id :: id in metas' ==> (id in metas && metas[id] == metas'[id]) || metas'[id].createdAt <= clock')
  }

  lemma LastingUnchanged(clock: int, metas: map<Text, Record>, clock': int)
    requires clock <= clock'
    ensures Lasting(clock, metas, clock', metas)
  {
  }

  lemma LastingTransitive(
    a: int, metas: map<Text, Record>, b: int, metas': map<Text, Record>, c: int, metas'': map<Text, Record>)
    requires Lasting(a, metas, b, metas') && Lasting(b, metas', c, metas'')
    ensures Lasting(a, metas, c, metas'')
  {
  }

  lemma LastingWithout(clock: int, metas: map<Text, Record>, clock': int, gone: set<Text>)
    requires clock <= clock' && forall id :: id in gone && id in metas ==> metas[id].expiresAt <= clock'
    ensures Lasting(clock, metas, clock', metas - gone)
  {
  }

  lemma LastingWith(clock: int, metas: map<Text, Record>, clock': int, record: Record)
    requires clock <= clock' && record.id !in metas && record.createdAt <= clock'
    ensures Lasting(clock, metas, clock', metas[record.id := record])
  {
  }
}

/** What one call on the artifact store may do and answer. */
module ArtifactProtocol {
  import opened Machine
  import opened Bytes
  import opened Totals
  import opened Deliveries
  import opened ArtifactModel
  import opened ArtifactDisk

  /**
   * The store between two calls: the poison flag, the high-water mark in memory,
   * the mark saved on disk, the directory's entries and the records.
   */
  datatype Snap = Snap(trusted: bool, clock: int, saved: int, entries: nat, metas: map<Text, Record>)

  datatype Op =
    | Retain(evaluation: Text, input: Input)
    | Verify(reference: Reference)
    | Find(evaluation: Text)
    | Read(id: Text, component: Component)
    | Cleanup
    | Open(second: int)

  datatype Outcome =
    | Retained(reference: Reference)
    | Verified
    | Found(found: Option<Reference>)
    | Content(bytes: Text)
    | Cleaned(removedRecords: nat, removedBytes: nat)
    | Opened
    | Failed(error: ArtifactError)

  function Live(metas: map<Text, Record>, now: int): map<Text, Record>
  {
    map id | id in metas && metas[id].expiresAt > now :: metas[id]
  }

  /** Every record was made no later than the saved mark. */
  ghost predicate Aged(saved: int, metas: map<Text, Record>)
  {
    forall id :: id in metas ==> metas[id].createdAt <= saved
  }

  ghost predicate SnapSound(env: Env, config: Config, s: Snap)
  {
    && 0 <= s.saved <= s.clock && OneEach(s.metas) && Aged(s.saved, s.metas)
    && (forall id :: id in s.metas ==> s.metas[id].id == id && RecordValid(env, config, s.metas[id]))
    && |s.metas| <= config.maxRecords && Total(Sizes(env, s.metas)) <= config.maxBytes
    && (s.trusted ==> s.clock == s.saved && s.entries <= 6 * |s.metas| + 2)
  }

  ghost predicate Lasts(s: Snap, s': Snap)
  {
    Lasting(s.saved, s.metas, s'.saved, s'.metas)
  }

  lemma LastsAfter(a: Snap, b: Snap, c: Snap)
    requires Lasts(a, b) && Lasts(b, c)
    ensures Lasts(a, c)
  {
    LastingTransitive(a.saved, a.metas, b.saved, b.metas, c.saved, c.metas);
  }

  lemma AgedLater(s: Snap, s': Snap)
    requires Lasts(s, s') && Aged(s.saved, s.metas)
    ensures Aged(s'.saved, s'.metas)
  {
  }

  /** Neither mark falls, nothing unexpired is lost, and a trusted root can be scanned again. */
  ghost predicate Onward(config: Config, s: Snap, s': Snap)
  {
    s.clock <= s'.clock && Lasts(s, s') && (s.trusted ==> s'.entries <= Ceiling(config))
  }

  /** The record an answer was made from: live, and stored under its own identifier. */
  ghost predicate Answers(config: Config, s: Snap, now: int, id: Text, reference: Reference)
  {
    id in s.metas && s.metas[id].expiresAt > now && RefOf(config, s.metas[id]) == reference
  }

  /** A retained record: the live one of that evaluation, or one made now. */
  ghost predicate RetainAnswer(env: Env, config: Config, s: Snap, now: int, op: Op, reference: Reference, s': Snap)
    requires op.Retain?
  {
    var id := ExpectedId(env, op.evaluation, op.input);
    && NewRecord(env, config, op.evaluation, now, op.input).Ok?
    && id in s'.metas && RefOf(config, s'.metas[id]) == reference
    && s'.metas[id].evaluation == op.evaluation
    && if id in Live(s.metas, now) then s'.metas == Live(s.metas, now) && Swept(s, now, s')
       else
         && s'.metas == Live(s.metas, now)[id := s'.metas[id]] && s'.clock == now
         && s'.metas[id].createdAt == now && s'.metas[id].input == op.input
         && forall other :: other in Live(s.metas, now) ==> s.metas[other].evaluation != op.evaluation
  }

  /** The evaluation is bound to other content, or the identifier to another evaluation. */
  ghost predicate Rebound(env: Env, live: map<Text, Record>, op: Op)
    requires op.Retain?
  {
    exists id :: id in live
      && ((live[id].evaluation == op.evaluation) != (id == ExpectedId(env, op.evaluation, op.input)))
  }

  ghost predicate Answer(env: Env, config: Config, s: Snap, now: int, op: Op, out: Outcome, s': Snap)
  {
    match out
    case Retained(reference) => op.Retain? && RetainAnswer(env, config, s, now, op, reference, s')
    case Verified => op.Verify? && Answers(config, s', now, op.reference.id, op.reference)
    case Found(Some(reference)) =>
      op.Find? && exists id :: Answers(config, s', now, id, reference) && s'.metas[id].evaluation == op.evaluation
    case Found(None) => op.Find? && forall id :: id in s'.metas ==> s'.metas[id].evaluation != op.evaluation
    case Content(bytes) =>
      && op.Read? && op.id in s'.metas && s'.metas[op.id].expiresAt > now
      && s'.metas[op.id].input.At(op.component).Some?
      && Describes(env.sha, s'.metas[op.id].input.At(op.component).value, bytes)
    case Cleaned(records, bytes) =>
      && op.Cleanup? && records == |s.metas| - |s'.metas|
      && bytes == Total(Sizes(env, s.metas)) - Total(Sizes(env, s'.metas))
    case Opened => false
    case Failed(error) =>
      op.Retain? && s'.trusted && error == Conflict ==> Rebound(env, Live(s.metas, now), op)
  }

  /** The reference of the record stored under its identifier. */
  predicate Names(config: Config, metas: map<Text, Record>, reference: Reference)
  {
    reference.id in metas && RefOf(config, metas[reference.id]) == reference
  }

  /** A call that read the clock and left the store trusted is answered from the records it left. */
  ghost predicate Served(env: Env, config: Config, now: int, op: Op, out: Outcome, s': Snap)
  {
    match op
    case Retain(evaluation, input) =>
      var id := ExpectedId(env, evaluation, input);
      NewRecord(env, config, evaluation, now, input).Ok? && id in s'.metas && s'.metas[id].evaluation == evaluation ==>
        out.Retained?
    case Verify(reference) => Names(config, s'.metas, reference) ==> out == Verified
    case Find(_) => out.Found?
    case Read(id, component) => id in s'.metas && s'.metas[id].input.At(component).Some? ==> out.Content?
    case Cleanup => out.Cleaned?
    case Open(_) => true
  }

  /** Untouched, or swept of everything expired and nothing else. */
  ghost predicate Swept(s: Snap, now: int, s': Snap)
  {
    || s' == s
    || (s'.metas == Live(s.metas, now) && s'.clock == if s'.metas == s.metas then s.clock else now)
  }

  /** One call under the effective time `now`, or refused before a time was read. */
  ghost predicate Step(env: Env, config: Config, s: Snap, reading: int, op: Op, out: Outcome, s': Snap)
  {
    var now := Max(reading, s.clock);
    && Onward(config, s, s')
    && (!s.trusted ==> s' == s)
    && (!s.trusted || !s'.trusted || reading < 0 ==> out.Failed? && out.error != Conflict)
    && (s.trusted && s'.trusted ==>
          && Answer(env, config, s, now, op, out, s')
          && (0 <= reading ==> Served(env, config, now, op, out, s'))
          && (!out.Retained? ==> Swept(s, now, s'))
          && (!out.Retained? && !out.Failed? ==> s'.metas == Live(s.metas, now)))
  }

  /**
   * One opening of the root, which reads the clock twice: before the scan, to
   * raise the saved mark, and after it, to sweep.
   */
  ghost predicate OpenStep(config: Config, s: Snap, reading: int, second: int, out: Outcome, s': Snap)
  {
    var first := Max(reading, s.saved);
    var now := Max(second, first);
    && Lasts(s, s')
    && match out
       case Opened =>
         && 0 <= reading && 0 <= second && s.entries <= Ceiling(config) && s'.trusted
         && s'.metas == Live(s.metas, now) && s'.clock == if s'.metas == s.metas then first else now
       case Failed(error) =>
         && !s'.trusted && s'.clock == s'.saved && s'.entries <= Max(s.entries + 1, Ceiling(config))
         && (error == Corrupt ==> s.entries > Ceiling(config))
         && (error == ArtifactError.Clock ==> reading < 0 || second < 0)
       case _ => false
  }
}

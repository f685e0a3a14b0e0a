/** Retained artifacts and their references (controller/src/artifacts.rs, artifacts/format.rs). */
module ArtifactModel {
  import opened Machine
  import opened Bytes
  import opened Json
  import opened Deliveries

  const MAX_ARTIFACT_RECORDS: nat := 100_000
  const MAX_ARTIFACT_BYTES: nat := 68_719_476_736
  const MAX_ARTIFACT_RECORD_BYTES: nat := 1_073_741_824
  const MAX_RETENTION_SECS: nat := 31_536_000
  const MAX_RECORD_METADATA_BYTES: nat := 16_384
  const MACHINE_JSON_BYTES: nat := 268_435_456
  const SEMANTIC_INPUT_ARTIFACT_BYTES: nat := 50_331_648
  const DOCUMENT_BYTES: nat := 65_536
  const LOCALE_ASSESSMENT_BYTES: nat := 16_777_216

  datatype ArtifactError =
    Clock | Configuration | Conflict | Corrupt | Full | NotFound | TooLarge | Io

  datatype Component =
    | Report | Semantic | Plan | Evidence | Assessment
    | PublicationPlan | PublicationEvidence | PublicationAssessment
    | RelationPlan | RelationEvidence | RelationAssessment
    | LocalePlan | LocaleEvidence | LocaleAssessment

  datatype Blob = Blob(digest: Text, length: nat)
  {
    predicate Valid() { 0 < length <= MACHINE_JSON_BYTES }
  }

  /** `Blob::new`. */
  function BlobOf(sha: Hash, bytes: Text): Result<Blob, ArtifactError>
  {
    if bytes == [] then Err(Corrupt)
    else if |bytes| > MACHINE_JSON_BYTES then Err(TooLarge)
    else Ok(Blob(sha(bytes), |bytes|))
  }

  predicate Describes(sha: Hash, blob: Blob, bytes: Text)
  {
    |bytes| == blob.length && sha(bytes) == blob.digest
  }

  datatype Sidecar = Sidecar(plan: Blob, evidence: Option<Blob>, assessment: Blob, unproven: bool)

  datatype Tally = Tally(refuted: nat, unproven: nat, reachable: nat)

  datatype Input = Input(
    report: Blob,
    plan: Option<Blob>,
    evidence: Option<Blob>,
    assessment: Option<Blob>,
    tally: Option<Tally>,
    incomplete: bool,
    semantic: Option<Blob>,
    publication: Option<Sidecar>,
    relation: Option<Sidecar>,
    locale: Option<Sidecar>)
  {
    /** The blob stored under one component, if any. */
    function At(component: Component): Option<Blob>
    {
      match component
      case Report => Some(report)
      case Plan => plan
      case Evidence => evidence
      case Assessment => assessment
      case Semantic => semantic
      case PublicationPlan => PlanOf(publication)
      case PublicationEvidence => EvidenceOf(publication)
      case PublicationAssessment => AssessmentOf(publication)
      case RelationPlan => PlanOf(relation)
      case RelationEvidence => EvidenceOf(relation)
      case RelationAssessment => AssessmentOf(relation)
      case LocalePlan => PlanOf(locale)
      case LocaleEvidence => EvidenceOf(locale)
      case LocaleAssessment => AssessmentOf(locale)
    }
  }

  function PlanOf(audit: Option<Sidecar>): Option<Blob>
  {
    if audit.Some? then Some(audit.value.plan) else None
  }

  function EvidenceOf(audit: Option<Sidecar>): Option<Blob>
  {
    if audit.Some? then audit.value.evidence else None
  }

  function AssessmentOf(audit: Option<Sidecar>): Option<Blob>
  {
    if audit.Some? then Some(audit.value.assessment) else None
  }

  /** The order in which `blobs` lists a record's components. */
  const COMPONENTS: seq<Component> := [
    Report, Plan, Evidence, Assessment, Semantic,
    PublicationPlan, PublicationEvidence, PublicationAssessment,
    RelationPlan, RelationEvidence, RelationAssessment,
    LocalePlan, LocaleEvidence, LocaleAssessment]

  datatype Record = Record(id: Text, evaluation: Text, createdAt: int, expiresAt: int, input: Input)

  datatype Reference = Reference(
    id: Text,
    locator: Text,
    expiresAt: int,
    reportDigest: Text,
    semanticDigest: Option<Text>,
    assessmentDigest: Option<Text>,
    tally: Option<Tally>,
    incomplete: bool)

  datatype Config = Config(
    baseUrl: Text, retention: Duration, maxRecords: nat, maxBytes: nat, maxRecordBytes: nat)

  /**
   * What the store takes from elsewhere: SHA-256, the JSON spelling an identity
   * is hashed from, the encoded size of a record's metadata, the URL parser's
   * verdict on a base and the semantic validator's verdict on a report's evidence.
   */
  datatype Env = Env(
    sha: Hash,
    spell: (Text, Input) -> Text,
    metadataBytes: Record -> nat,
    parses: Text -> bool,
    evidences: (Text, Text) -> bool)

  const SLASH: Byte := 47

  // ----- Routes and references -----

  predicate Routes(env: Env, base: Text)
  {
    |base| <= 2_048 && !(base != [] && base[|base| - 1] == SLASH) && env.parses(base)
  }

  predicate ValidId(id: Text)
  {
    |id| == 64 && forall i :: 0 <= i < |id| ==> LowerHex(id[i])
  }

  function StripSuffix(text: Text, suffix: Text): Option<Text>
  {
    if |suffix| <= |text| && text[|text| - |suffix|..] == suffix then Some(text[..|text| - |suffix|])
    else None
  }

  function RsplitOnce(text: Text, separator: Byte): Option<(Text, Text)>
  {
    if text == [] then None
    else
      var last, rest := text[|text| - 1], text[..|text| - 1];
      if last == separator then Some((rest, []))
      else
        match RsplitOnce(rest, separator)
        case None => None
        case Some((left, right)) => Some((left, right + [last]))
  }

  function Locator(base: Text, id: Text): Text { base + [SLASH] + id + Ascii("/report") }

  /** The base and identifier a locator names. */
  function Located(locator: Text): Option<(Text, Text)>
  {
    match StripSuffix(locator, Ascii("/report"))
    case None => None
    case Some(path) => RsplitOnce(path, SLASH)
  }

  lemma {:induction false} RsplitJoined(left: Text, right: Text, separator: Byte)
    requires separator !in right
    ensures RsplitOnce(left + [separator] + right, separator) == Some((left, right))
  {
    var text := left + [separator] + right;
    if right == [] {
      assert text[..|text| - 1] == left;
    } else {
      var front := right[..|right| - 1];
      assert text[..|text| - 1] == left + [separator] + front;
      RsplitJoined(left, front, separator);
      assert right == front + [right[|right| - 1]];
    }
  }

  lemma {:induction false} RsplitMeans(text: Text, separator: Byte)
    ensures RsplitOnce(text, separator).None? <==> separator !in text
    ensures RsplitOnce(text, separator).Some? ==>
      var (left, right) := RsplitOnce(text, separator).value;
      text == left + [separator] + right && separator !in right
  {
    if text != [] {
      var rest := text[..|text| - 1];
      RsplitMeans(rest, separator);
      assert text == rest + [text[|text| - 1]];
      if text[|text| - 1] == separator {
        assert text == rest + [separator] + [];
      }
    }
  }

  /** A locator names exactly the base and identifier it was spelled from. */
  lemma LocatorRoundTrip(locator: Text, base: Text, id: Text)
    requires SLASH !in id
    ensures Located(locator) == Some((base, id)) <==> locator == Locator(base, id)
  {
    hide RsplitOnce, Ascii;
    var suffix := Ascii("/report");
    var path := base + [SLASH] + id;
    if locator == Locator(base, id) {
      assert locator == path + suffix;
      assert locator[|locator| - |suffix|..] == suffix && locator[..|locator| - |suffix|] == path;
      RsplitJoined(base, id, SLASH);
    }
    if Located(locator) == Some((base, id)) {
      var stripped := StripSuffix(locator, suffix).value;
      RsplitMeans(stripped, SLASH);
      assert locator == stripped + suffix;
    }
  }

  predicate ValidReference(env: Env, reference: Reference)
  {
    && ValidId(reference.id)
    && Located(reference.locator).Some?
    && Located(reference.locator).value.1 == reference.id
    && Routes(env, Located(reference.locator).value.0)
    && reference.expiresAt >= 0
    && !(reference.incomplete && reference.tally.Some?)
    && (reference.assessmentDigest.Some? <==> reference.tally.Some?)
  }

  function DigestOf(blob: Option<Blob>): Option<Text>
  {
    if blob.Some? then Some(blob.value.digest) else None
  }

  function RefOf(config: Config, record: Record): Reference
  {
    Reference(
      record.id, Locator(config.baseUrl, record.id), record.expiresAt, record.input.report.digest,
      DigestOf(record.input.semantic), DigestOf(record.input.assessment), record.input.tally,
      record.input.incomplete)
  }

  /** `Record::reference`. */
  function CheckedReference(env: Env, config: Config, record: Record): Result<Reference, ArtifactError>
  {
    if ValidReference(env, RefOf(config, record)) then Ok(RefOf(config, record)) else Err(Corrupt)
  }

  // ----- Records -----

  function ExpectedId(env: Env, evaluation: Text, input: Input): (id: Text)
    ensures ValidId(id)
  {
    Hex(env.sha(env.spell(evaluation, input)))
  }

  predicate BlobFits(blob: Option<Blob>, limit: nat)
  {
    blob.Some? ==> blob.value.Valid() && blob.value.length <= limit
  }

  predicate ValidSidecar(audit: Sidecar, plan: nat, document: nat)
  {
    && BlobFits(Some(audit.plan), plan) && BlobFits(audit.evidence, document)
    && BlobFits(Some(audit.assessment), document)
    && (audit.unproven || audit.evidence.Some?)
  }

  function Count(audit: Option<Sidecar>): nat { if audit.Some? then 1 else 0 }

  predicate SidecarsValid(input: Input)
  {
    && Count(input.publication) + Count(input.relation) + Count(input.locale) <= 1
    && (input.publication.Some? ==> ValidSidecar(input.publication.value, DOCUMENT_BYTES, DOCUMENT_BYTES))
    && (input.relation.Some? ==> ValidSidecar(input.relation.value, DOCUMENT_BYTES, DOCUMENT_BYTES))
    && (input.locale.Some? ==> ValidSidecar(input.locale.value, DOCUMENT_BYTES, LOCALE_ASSESSMENT_BYTES))
  }

  predicate SidecarIsolated(input: Input)
  {
    Count(input.publication) + Count(input.relation) + Count(input.locale) > 0 ==>
      && input.semantic.None? && input.plan.None? && input.evidence.None? && input.assessment.None?
      && input.tally.None? && !input.incomplete
  }

  predicate ChainValid(input: Input)
  {
    && (input.assessment.Some? <==> input.tally.Some?)
    && (input.incomplete ==> input.assessment.None?)
    && (input.assessment.Some? ==> input.plan.Some? && input.evidence.Some?)
  }

  predicate InputValid(input: Input)
  {
    && BlobFits(Some(input.report), MACHINE_JSON_BYTES) && BlobFits(input.plan, MACHINE_JSON_BYTES)
    && BlobFits(input.evidence, MACHINE_JSON_BYTES) && BlobFits(input.assessment, MACHINE_JSON_BYTES)
    && BlobFits(input.semantic, SEMANTIC_INPUT_ARTIFACT_BYTES)
    && ChainValid(input) && SidecarsValid(input) && SidecarIsolated(input)
  }

  /** The most bytes one component may hold. */
  ghost function ComponentLimit(c: Component): nat
  {
    match c
    case Report | Plan | Evidence | Assessment => 268_435_456
    case Semantic => 50_331_648
    case LocaleEvidence | LocaleAssessment => 16_777_216
    case _ => 65_536
  }

  /** What a component belongs to: nothing but the record, the external chain, or one of the audits. */
  ghost function Family(c: Component): nat
  {
    match c
    case Report => 0
    case Semantic | Plan | Evidence | Assessment => 1
    case PublicationPlan | PublicationEvidence | PublicationAssessment => 2
    case RelationPlan | RelationEvidence | RelationAssessment => 3
    case LocalePlan | LocaleEvidence | LocaleAssessment => 4
  }

  ghost predicate Proven(input: Input)
  {
    && (input.publication.Some? ==> input.At(PublicationEvidence).Some? || input.publication.value.unproven)
    && (input.relation.Some? ==> input.At(RelationEvidence).Some? || input.relation.value.unproven)
    && (input.locale.Some? ==> input.At(LocaleEvidence).Some? || input.locale.value.unproven)
  }

  ghost predicate Within(input: Input, c: Component)
  {
    input.At(c).Some? ==> 1 <= input.At(c).value.length <= ComponentLimit(c)
  }

  /** Two components a record may hold together. */
  ghost predicate Together(input: Input, c: Component, d: Component)
  {
    input.At(c).Some? && input.At(d).Some? && Family(c) != 0 && Family(d) != 0 ==> Family(c) == Family(d)
  }

  ghost predicate Audited(input: Input)
  {
    input.publication.Some? || input.relation.Some? || input.locale.Some?
  }

  /**
   * An input validates exactly when each stored component is within its own limit, all
   * beside the report belong together, the external chain is whole, and an audit without
   * evidence is unproven.
   */
  lemma InputsValidateExactly(input: Input)
    ensures InputValid(input) <==>
      && (forall c :: Within(input, c)) && (forall c, d :: Together(input, c, d))
      && (input.tally.Some? <==> input.At(Assessment).Some?)
      && (input.tally.Some? ==> input.At(Plan).Some? && input.At(Evidence).Some? && !input.incomplete)
      && (input.incomplete ==> !Audited(input))
      && Proven(input)
  {
    hide Within, Together;
    LimitsMean(input);
    FamiliesMean(input);
    SidecarsMean(input);
    hide BlobFits, SidecarFits, SidecarsValid;
  }

  lemma SidecarsMean(input: Input)
    ensures SidecarsValid(input) <==>
      && Count(input.publication) + Count(input.relation) + Count(input.locale) <= 1
      && SidecarFits(input.publication, DOCUMENT_BYTES, DOCUMENT_BYTES)
      && SidecarFits(input.relation, DOCUMENT_BYTES, DOCUMENT_BYTES)
      && SidecarFits(input.locale, DOCUMENT_BYTES, LOCALE_ASSESSMENT_BYTES)
      && Proven(input)
  {
  }

  ghost predicate SidecarFits(audit: Option<Sidecar>, plan: nat, document: nat)
  {
    BlobFits(PlanOf(audit), plan) && BlobFits(EvidenceOf(audit), document) && BlobFits(AssessmentOf(audit), document)
  }

  lemma LimitsMean(input: Input)
    ensures (forall c :: Within(input, c)) <==>
      && BlobFits(Some(input.report), MACHINE_JSON_BYTES) && BlobFits(input.plan, MACHINE_JSON_BYTES)
      && BlobFits(input.evidence, MACHINE_JSON_BYTES) && BlobFits(input.assessment, MACHINE_JSON_BYTES)
      && BlobFits(input.semantic, SEMANTIC_INPUT_ARTIFACT_BYTES)
      && SidecarFits(input.publication, DOCUMENT_BYTES, DOCUMENT_BYTES)
      && SidecarFits(input.relation, DOCUMENT_BYTES, DOCUMENT_BYTES)
      && SidecarFits(input.locale, DOCUMENT_BYTES, LOCALE_ASSESSMENT_BYTES)
  {
    ChainWithin(input);
    AuditsWithin(input);
    hide BlobFits, Within, SidecarFits;
    if AllWithin(input) {
      forall c ensures Within(input, c) {
        match c case Report => case Plan => case Evidence => case Assessment => case Semantic =>
        case PublicationPlan => case PublicationEvidence => case PublicationAssessment =>
        case RelationPlan => case RelationEvidence => case RelationAssessment =>
        case LocalePlan => case LocaleEvidence => case LocaleAssessment =>
      }
    }
  }

  /** The limits one component after another. */
  ghost predicate AllWithin(input: Input)
  {
    && Within(input, Report) && Within(input, Plan) && Within(input, Evidence) && Within(input, Assessment)
    && Within(input, Semantic)
    && Within(input, PublicationPlan) && Within(input, PublicationEvidence) && Within(input, PublicationAssessment)
    && Within(input, RelationPlan) && Within(input, RelationEvidence) && Within(input, RelationAssessment)
    && Within(input, LocalePlan) && Within(input, LocaleEvidence) && Within(input, LocaleAssessment)
  }

  lemma ChainWithin(input: Input)
    ensures Within(input, Report) <==> BlobFits(Some(input.report), MACHINE_JSON_BYTES)
    ensures Within(input, Plan) <==> BlobFits(input.plan, MACHINE_JSON_BYTES)
    ensures Within(input, Evidence) <==> BlobFits(input.evidence, MACHINE_JSON_BYTES)
    ensures Within(input, Assessment) <==> BlobFits(input.assessment, MACHINE_JSON_BYTES)
    ensures Within(input, Semantic) <==> BlobFits(input.semantic, SEMANTIC_INPUT_ARTIFACT_BYTES)
  {
  }

  lemma AuditsWithin(input: Input)
    ensures Within(input, PublicationPlan) && Within(input, PublicationEvidence) && Within(input, PublicationAssessment)
      <==> SidecarFits(input.publication, DOCUMENT_BYTES, DOCUMENT_BYTES)
    ensures Within(input, RelationPlan) && Within(input, RelationEvidence) && Within(input, RelationAssessment)
      <==> SidecarFits(input.relation, DOCUMENT_BYTES, DOCUMENT_BYTES)
    ensures Within(input, LocalePlan) && Within(input, LocaleEvidence) && Within(input, LocaleAssessment)
      <==> SidecarFits(input.locale, DOCUMENT_BYTES, LOCALE_ASSESSMENT_BYTES)
  {
  }

  lemma FamiliesMean(input: Input)
    ensures (forall c, d :: Together(input, c, d)) <==>
      && Count(input.publication) + Count(input.relation) + Count(input.locale) <= 1
      && (Audited(input) ==>
            input.semantic.None? && input.plan.None? && input.evidence.None? && input.assessment.None?)
  {
    if forall c, d :: Together(input, c, d) {
      assert Together(input, PublicationPlan, RelationPlan) && Together(input, PublicationPlan, LocalePlan);
      assert Together(input, RelationPlan, LocalePlan);
      ChainApart(input, PublicationPlan);
      ChainApart(input, RelationPlan);
      ChainApart(input, LocalePlan);
    }
  }

  lemma ChainApart(input: Input, c: Component)
    requires Family(c) > 1 && forall d :: Together(input, c, d)
    ensures input.At(c).Some? ==>
      input.semantic.None? && input.plan.None? && input.evidence.None? && input.assessment.None?
  {
    assert Together(input, c, Semantic) && Together(input, c, Plan);
    assert Together(input, c, Evidence) && Together(input, c, Assessment);
  }

  /** `Record::validate`. */
  predicate RecordValid(env: Env, config: Config, record: Record)
  {
    && record.createdAt >= 0
    && AddI64(record.createdAt, config.retention.Millis()) == Some(record.expiresAt)
    && InputValid(record.input)
    && record.id == ExpectedId(env, record.evaluation, record.input)
  }

  /** `Record::new`. */
  function NewRecord(env: Env, config: Config, evaluation: Text, now: int, input: Input): Result<Record, ArtifactError>
  {
    match AddI64(now, config.retention.Millis())
    case None => Err(Clock)
    case Some(expiresAt) =>
      var record := Record(ExpectedId(env, evaluation, input), evaluation, now, expiresAt, input);
      if RecordValid(env, config, record) then Ok(record) else Err(Corrupt)
  }

  predicate RetentionValid(retention: Duration)
  {
    && !retention.IsZero()
    && (retention.secs < MAX_RETENTION_SECS || (retention.secs == MAX_RETENTION_SECS && retention.nanos == 0))
  }

  /** `validate_config`. */
  predicate ConfigValid(env: Env, config: Config)
  {
    && Routes(env, config.baseUrl)
    && RetentionValid(config.retention)
    && 1 <= config.maxRecords <= MAX_ARTIFACT_RECORDS
    && 1 <= config.maxBytes <= MAX_ARTIFACT_BYTES
    && 1 <= config.maxRecordBytes <= MAX_ARTIFACT_RECORD_BYTES
    && config.maxRecordBytes <= config.maxBytes
  }

  lemma IdHasNoSlash(id: Text)
    requires ValidId(id)
    ensures SLASH !in id
  {
  }

  /** Making the reference of a validated record under a validated configuration cannot fail. */
  lemma ReferenceNeverFails(env: Env, config: Config, record: Record)
    requires ConfigValid(env, config) && RecordValid(env, config, record)
    ensures CheckedReference(env, config, record) == Ok(RefOf(config, record))
  {
    hide Located, Locator, RetentionValid;
    IdHasNoSlash(record.id);
    LocatorRoundTrip(Locator(config.baseUrl, record.id), config.baseUrl, record.id);
  }
}

/** One stored inbox row and its lifecycle (controller/service/src/record.rs). */
module InboxRecord {
  import opened Machine
  import opened Bytes
  import opened Json
  import opened InboxLimits
  import opened Deliveries
  import Frame

  datatype State = Pending(availableAt: int) | Claimed(owner: Text, expiresAt: int)

  datatype Record = Record(
    route: Text,
    sourceId: Text,
    contentDigest: Text,
    generation: nat,
    attempts: nat,
    fence: nat,
    delivery: Option<Delivery>,
    state: State)
  {
    function ReadyAt(): int
    {
      match state
      case Pending(availableAt) => availableAt
      case Claimed(_, expiresAt) => expiresAt
    }

    function BeginAttempt(): Result<Record, InboxError>
    {
      if attempts >= U64_MAX || fence >= U64_MAX then Err(Corrupt)
      else Ok(this.(attempts := attempts + 1, fence := fence + 1))
    }

    /** Claims the row for `owner`, never moving a claim's deadline backward. */
    function Lease(owner: Text, now: int, leaseMillis: nat): Result<Record, InboxError>
    {
      var requested := AddI64(now, leaseMillis);
      if requested.None? then Err(Clock)
      else if generation >= U64_MAX then Err(Corrupt)
      else
        var expiresAt := match state
          case Pending(_) => requested.value
          case Claimed(_, current) => Max(requested.value, current);
        Ok(this.(generation := generation + 1, state := Claimed(owner, expiresAt)))
    }

    function Retry(availableAt: int): Result<Record, InboxError>
    {
      if generation >= U64_MAX then Err(Corrupt)
      else Ok(this.(generation := generation + 1, state := Pending(availableAt)))
    }

    predicate LeaseIsLive(lease: DeliveryLease, now: int)
    {
      && state.Claimed?
      && state.owner == lease.owner
      && fence == lease.fence
      && generation == lease.generation
      && state.expiresAt == lease.expiresAt
      && now < state.expiresAt
    }
  }

  /** The token a claim or renewal hands out. */
  datatype DeliveryLease = DeliveryLease(
    key: Text,
    owner: Text,
    fence: nat,
    generation: nat,
    attempt: nat,
    expiresAt: int)

  function MakeLease(key: Text, record: Record): DeliveryLease
    requires record.state.Claimed?
  {
    DeliveryLease(
      key, record.state.owner, record.fence, record.generation, record.attempts,
      record.state.expiresAt)
  }

  function NewRecord(sha: Hash, delivery: Delivery): Record
  {
    Record(delivery.route, delivery.sourceId, ContentDigest(sha, delivery), 0, 0, 0,
           Some(delivery), Pending(0))
  }

  predicate ValidOwner(owner: Text)
  {
    |owner| == 32 && forall i :: 0 <= i < 32 ==> LowerHex(owner[i])
  }

  /** `Record::validate`, plus the machine widths its fields carry. */
  predicate RecordValid(sha: Hash, record: Record, key: Text, limits: StoredLimits)
  {
    && SourceKey(sha, record.route, record.sourceId) == key
    && record.attempts == record.fence
    && record.attempts <= record.generation <= U64_MAX
    && ValidLabel(record.route, limits.maxRouteBytes)
    && ValidLabel(record.sourceId, limits.maxSourceIdBytes)
    && record.delivery.Some?
    && (match record.state
        case Pending(availableAt) => 0 <= availableAt <= I64_MAX
        case Claimed(owner, expiresAt) =>
          ValidOwner(owner) && 0 < expiresAt <= I64_MAX && record.attempts > 0)
    && var delivery := record.delivery.value;
       && DeliveryValid(delivery, limits)
       && delivery.receivedAt <= I64_MAX
       && delivery.route == record.route
       && delivery.sourceId == record.sourceId
       && ContentDigest(sha, delivery) == record.contentDigest
  }

  lemma NewRecordIsValid(sha: Hash, incoming: Delivery, limits: StoredLimits)
    requires Normalize(incoming, limits).Ok? && incoming.receivedAt <= I64_MAX
    ensures var delivery := Normalize(incoming, limits).value;
            RecordValid(sha, NewRecord(sha, delivery),
                        SourceKey(sha, delivery.route, delivery.sourceId), limits)
  {
    NormalizedIsValid(incoming, limits);
  }

  // ----- The stored frame and its size -----

  const ROW_MAGIC := "AMISS-INBOX-ROW"

  // Each part is written in front of what follows it.

  function DeliveryJson(delivery: Delivery, rest: Text): Text
  {
    Ascii("{\"route\":") + (JsonString(delivery.route)
    + (Ascii(",\"source_id\":") + (JsonString(delivery.sourceId)
    + (Ascii(",\"received_at_unix_millis\":") + (JsonInt(delivery.receivedAt)
    + (Ascii(",\"headers\":") + (HeadersJson(delivery.headers)
    + (Ascii(",\"body_base64\":") + (JsonString(Base64(delivery.body)) + (Ascii("}") + rest))))))))))
  }

  function PayloadJson(delivery: Option<Delivery>, rest: Text): Text
  {
    if delivery.Some? then DeliveryJson(delivery.value, rest) else Ascii("null") + rest
  }

  function StateJson(state: State, rest: Text): Text
  {
    match state
    case Pending(availableAt) =>
      Ascii("{\"state\":\"pending\",\"available_at_unix_millis\":") + (JsonInt(availableAt) + (Ascii("}") + rest))
    case Claimed(owner, expiresAt) =>
      Ascii("{\"state\":\"claimed\",\"owner\":") + (JsonString(owner)
      + (Ascii(",\"expires_at_unix_millis\":") + (JsonInt(expiresAt) + (Ascii("}") + rest))))
  }

  function CountersJson(record: Record, rest: Text): Text
  {
    Ascii(",\"content_digest\":") + (JsonString(Hex(record.contentDigest))
    + (Ascii(",\"generation\":") + (JsonInt(record.generation)
    + (Ascii(",\"attempts\":") + (JsonInt(record.attempts)
    + (Ascii(",\"fence\":") + (JsonInt(record.fence) + rest)))))))
  }

  function RowJson(record: Record): Text
  {
    Ascii("{\"schema\":\"amiss/controller-inbox-record-v1\",\"route\":") + (JsonString(record.route)
    + (Ascii(",\"source_id\":") + (JsonString(record.sourceId)
    + CountersJson(record, Ascii(",\"delivery\":") + PayloadJson(record.delivery, Ascii(",\"state\":")
    + StateJson(record.state, Ascii("}")))))))
  }

  lemma NumberDetermined(tag: Text, a: int, x: Text, b: int, y: Text)
    requires tag + (JsonInt(a) + x) == tag + (JsonInt(b) + y) && Stops(x) && Stops(y)
    ensures a == b && x == y
  {
    SplitAt(tag, JsonInt(a) + x, tag, JsonInt(b) + y);
    JsonIntDetermined(a, x, b, y);
  }

  lemma TextAndNumberDetermined(
    first: Text, second: Text, a: Text, m: int, x: Text, b: Text, n: int, y: Text)
    requires first + (JsonString(a) + (second + (JsonInt(m) + x)))
          == first + (JsonString(b) + (second + (JsonInt(n) + y)))
    requires Stops(x) && Stops(y)
    ensures a == b && m == n && x == y
  {
    FieldDetermined(first, a, second + (JsonInt(m) + x), b, second + (JsonInt(n) + y));
    NumberDetermined(second, m, x, n, y);
  }

  lemma DeliveryPartsDetermined(
    route: Text, source: Text, received: Text, headers: Text, body: Text, close: Text, a: Delivery, x: Text,
    b: Delivery, y: Text)
    requires Stops(headers)
    requires
      route + (JsonString(a.route) + (source + (JsonString(a.sourceId) + (received + (JsonInt(a.receivedAt)
      + (headers + (HeadersJson(a.headers) + (body + (JsonString(Base64(a.body)) + (close + x))))))))))
      == route + (JsonString(b.route) + (source + (JsonString(b.sourceId) + (received + (JsonInt(b.receivedAt)
         + (headers + (HeadersJson(b.headers) + (body + (JsonString(Base64(b.body)) + (close + y))))))))))
    ensures a == b && x == y
  {
    var ba, bb := body + (JsonString(Base64(a.body)) + (close + x)), body + (JsonString(Base64(b.body)) + (close + y));
    var ha, hb := headers + (HeadersJson(a.headers) + ba), headers + (HeadersJson(b.headers) + bb);
    var ra, rb := received + (JsonInt(a.receivedAt) + ha), received + (JsonInt(b.receivedAt) + hb);
    FieldDetermined(
      route, a.route, source + (JsonString(a.sourceId) + ra), b.route, source + (JsonString(b.sourceId) + rb));
    FieldDetermined(source, a.sourceId, ra, b.sourceId, rb);
    assert ha[0] == headers[0] && hb[0] == headers[0];
    NumberDetermined(received, a.receivedAt, ha, b.receivedAt, hb);
    SplitAt(headers, HeadersJson(a.headers) + ba, headers, HeadersJson(b.headers) + bb);
    HeadersJsonDetermined(a.headers, ba, b.headers, bb);
    FieldDetermined(body, Base64(a.body), close + x, Base64(b.body), close + y);
    Base64Injective(a.body, b.body);
    SplitAt(close, x, close, y);
  }

  lemma DeliveryJsonDetermined(a: Delivery, x: Text, b: Delivery, y: Text)
    requires DeliveryJson(a, x) == DeliveryJson(b, y)
    ensures a == b && x == y
  {
    hide JsonString, JsonInt, HeadersJson, Base64;
    DeliveryPartsDetermined(
      Ascii("{\"route\":"), Ascii(",\"source_id\":"), Ascii(",\"received_at_unix_millis\":"),
      Ascii(",\"headers\":"), Ascii(",\"body_base64\":"), Ascii("}"), a, x, b, y);
  }

  lemma PayloadStart(delivery: Option<Delivery>, rest: Text)
    ensures PayloadJson(delivery, rest) != []
    ensures PayloadJson(delivery, rest)[0] == if delivery.Some? then 0x7B else 0x6E
  {
  }

  lemma PayloadDetermined(a: Option<Delivery>, x: Text, b: Option<Delivery>, y: Text)
    requires PayloadJson(a, x) == PayloadJson(b, y)
    ensures a == b && x == y
  {
    hide DeliveryJson, Ascii;
    PayloadStart(a, x);
    PayloadStart(b, y);
    if a.Some? {
      DeliveryJsonDetermined(a.value, x, b.value, y);
    } else {
      SplitAt(Ascii("null"), x, Ascii("null"), y);
    }
  }

  lemma StateStart(state: State, rest: Text)
    ensures |StateJson(state, rest)| > 10
    ensures StateJson(state, rest)[10] == if state.Pending? then 0x70 else 0x63
  {
    hide JsonString, JsonInt;
  }

  lemma StateDetermined(a: State, x: Text, b: State, y: Text)
    requires StateJson(a, x) == StateJson(b, y)
    ensures a == b && x == y
  {
    hide JsonString, JsonInt;
    StateStart(a, x);
    StateStart(b, y);
    assert Stops(Ascii("}") + x) && Stops(Ascii("}") + y);
    if a.Pending? {
      NumberDetermined(
        Ascii("{\"state\":\"pending\",\"available_at_unix_millis\":"), a.availableAt, Ascii("}") + x, b.availableAt,
        Ascii("}") + y);
    } else {
      TextAndNumberDetermined(
        Ascii("{\"state\":\"claimed\",\"owner\":"), Ascii(",\"expires_at_unix_millis\":"),
        a.owner, a.expiresAt, Ascii("}") + x, b.owner, b.expiresAt, Ascii("}") + y);
    }
    SplitAt(Ascii("}"), x, Ascii("}"), y);
  }

  lemma CounterPartsDetermined(
    digest: Text, generation: Text, attempts: Text, fence: Text, a: Record, x: Text, b: Record, y: Text)
    requires Stops(attempts) && Stops(fence) && Stops(x) && Stops(y)
    requires
      digest + (JsonString(Hex(a.contentDigest)) + (generation + (JsonInt(a.generation) + (attempts
      + (JsonInt(a.attempts) + (fence + (JsonInt(a.fence) + x)))))))
      == digest + (JsonString(Hex(b.contentDigest)) + (generation + (JsonInt(b.generation) + (attempts
         + (JsonInt(b.attempts) + (fence + (JsonInt(b.fence) + y)))))))
    ensures a.contentDigest == b.contentDigest && a.generation == b.generation
    ensures a.attempts == b.attempts && a.fence == b.fence && x == y
  {
    var fa, fb := fence + (JsonInt(a.fence) + x), fence + (JsonInt(b.fence) + y);
    var ta, tb := attempts + (JsonInt(a.attempts) + fa), attempts + (JsonInt(b.attempts) + fb);
    assert fa[0] == fence[0] && fb[0] == fence[0] && ta[0] == attempts[0] && tb[0] == attempts[0];
    FieldDetermined(
      digest, Hex(a.contentDigest), generation + (JsonInt(a.generation) + ta), Hex(b.contentDigest),
      generation + (JsonInt(b.generation) + tb));
    HexInjective(a.contentDigest, b.contentDigest);
    NumberDetermined(generation, a.generation, ta, b.generation, tb);
    NumberDetermined(attempts, a.attempts, fa, b.attempts, fb);
    NumberDetermined(fence, a.fence, x, b.fence, y);
  }

  lemma CountersDetermined(a: Record, x: Text, b: Record, y: Text)
    requires CountersJson(a, x) == CountersJson(b, y) && Stops(x) && Stops(y)
    ensures a.contentDigest == b.contentDigest && a.generation == b.generation
    ensures a.attempts == b.attempts && a.fence == b.fence && x == y
  {
    hide JsonString, JsonInt, Hex;
    CounterPartsDetermined(
      Ascii(",\"content_digest\":"), Ascii(",\"generation\":"), Ascii(",\"attempts\":"), Ascii(",\"fence\":"),
      a, x, b, y);
  }

  /** A stored row's bytes are those of one record only. */
  lemma RowDetermined(a: Record, b: Record)
    requires RowJson(a) == RowJson(b)
    ensures a == b
  {
    hide JsonString, CountersJson, PayloadJson, StateJson;
    var tag, source := Ascii("{\"schema\":\"amiss/controller-inbox-record-v1\",\"route\":"), Ascii(",\"source_id\":");
    var delivery, state, close := Ascii(",\"delivery\":"), Ascii(",\"state\":"), Ascii("}");
    var sa, sb := state + StateJson(a.state, close), state + StateJson(b.state, close);
    var pa, pb := delivery + PayloadJson(a.delivery, sa), delivery + PayloadJson(b.delivery, sb);
    RowPartsDetermined(tag, source, a, CountersJson(a, pa), b, CountersJson(b, pb));
    assert Stops(pa) && Stops(pb);
    CountersDetermined(a, pa, b, pb);
    SplitAt(delivery, PayloadJson(a.delivery, sa), delivery, PayloadJson(b.delivery, sb));
    PayloadDetermined(a.delivery, sa, b.delivery, sb);
    SplitAt(state, StateJson(a.state, close), state, StateJson(b.state, close));
    StateDetermined(a.state, close, b.state, close);
  }

  lemma RowPartsDetermined(tag: Text, source: Text, a: Record, x: Text, b: Record, y: Text)
    requires tag + (JsonString(a.route) + (source + (JsonString(a.sourceId) + x)))
          == tag + (JsonString(b.route) + (source + (JsonString(b.sourceId) + y)))
    ensures a.route == b.route && a.sourceId == b.sourceId && x == y
  {
    FieldDetermined(
      tag, a.route, source + (JsonString(a.sourceId) + x), b.route, source + (JsonString(b.sourceId) + y));
    FieldDetermined(source, a.sourceId, x, b.sourceId, y);
  }

  /** The size of the row file: magic, version, length, digest, then the JSON. */
  function RowBytes(record: Record): nat
  {
    |ROW_MAGIC| + 1 + 8 + 32 + |RowJson(record)|
  }

  /** That is the size of the frame the row is stored in. */
  lemma RowBytesIsTheFrame(sha: Hash, domain: Text, maximum: nat, record: Record)
    ensures
      var format := Frame.FrameFormat(Ascii(ROW_MAGIC), domain, maximum);
      RowBytes(record) == |Frame.Header(sha, format, RowJson(record)) + RowJson(record)|
  {
    hide RowJson;
  }

  /** What a row read back must be: its own key, a normalized delivery with its digest, a consistent life. */
  ghost predicate Consistent(sha: Hash, record: Record, key: Text, limits: StoredLimits)
  {
    && key == SourceKey(sha, record.route, record.sourceId)
    && record.fence == record.attempts <= record.generation <= U64_MAX
    && match record.delivery
       case None => false
       case Some(delivery) =>
         && Normalize(delivery, limits) == Ok(delivery) && delivery.receivedAt <= I64_MAX
         && (delivery.route, delivery.sourceId) == (record.route, record.sourceId)
         && record.contentDigest == ContentDigest(sha, delivery)
         && match record.state
            case Pending(availableAt) => 0 <= availableAt <= I64_MAX
            case Claimed(owner, expiresAt) =>
              && 1 <= record.attempts && 1 <= expiresAt <= I64_MAX
              && |owner| == 32 && forall b :: b in owner ==> LowerHex(b)
  }

  lemma ValidatesExactly(sha: Hash, record: Record, key: Text, limits: StoredLimits)
    ensures RecordValid(sha, record, key, limits) <==> Consistent(sha, record, key, limits)
  {
    hide SourceKey, ContentDigest, Normalize, HeadersValid, AdjacentSorted, LowercaseName, LowerHex;
    if record.delivery.Some? { ValidIffNormalized(record.delivery.value, limits); }
    if record.state.Claimed? && |record.state.owner| == 32 { OwnerBytes(record.state.owner); }
  }

  lemma OwnerBytes(owner: Text)
    requires |owner| == 32
    ensures (forall b :: b in owner ==> LowerHex(b)) <==> forall i :: 0 <= i < 32 ==> LowerHex(owner[i])
  {
    hide LowerHex;
  }

  lemma LabelSize(text: Text, maximum: nat)
    requires ValidLabel(text, maximum)
    ensures |JsonString(text)| <= 2 * maximum + 2
  {
    EscapeDoublesAtMost(text);
  }

  lemma Base64JsonSize(bytes: Text, maximum: nat)
    requires |bytes| <= maximum
    ensures |JsonString(Base64(bytes))| <= 4 * ((maximum + 2) / 3) + 2
    ensures |JsonString(Base64(bytes))| == 4 * ((|bytes| + 2) / 3) + 2
  {
    EscapeKeepsPlain(Base64(bytes));
  }

  lemma TokenIsPlain(b: Byte)
    requires TokenByte(b)
    ensures Plain(b)
  {
  }

  lemma PairSize(first: Text, a: Text, second: Text, b: Text, close: Text)
    ensures |first + (a + (second + (b + close)))| == |first| + |a| + |second| + |b| + |close|
  {
  }

  /** Token bytes are never escaped, so a name costs its own length. */
  lemma HeaderJsonSize(header: Header)
    requires ValidHeader(header)
    ensures |HeaderJson(header)| == |header.name| + 4 * ((|header.value| + 2) / 3) + 29
  {
    hide TokenByte, Plain, Base64, Escape;
    forall i | 0 <= i < |header.name| ensures Plain(header.name[i]) {
      TokenIsPlain(header.name[i]);
    }
    EscapeKeepsPlain(header.name);
    Base64JsonSize(header.value, |header.value|);
    PairSize(Ascii("{\"name\":"), JsonString(header.name), Ascii(",\"value_base64\":"),
             JsonString(Base64(header.value)), Ascii("}"));
  }

  lemma {:induction false} HeadersTailSize(headers: seq<Header>)
    requires forall i :: 0 <= i < |headers| ==> ValidHeader(headers[i])
    ensures 3 * |HeadersTail(headers)| <= 4 * HeaderBytes(headers) + 98 * |headers| + 3
  {
    if headers != [] {
      HeaderJsonSize(headers[0]);
      HeadersTailSize(headers[1..]);
    }
  }

  lemma HeadersJsonSize(headers: seq<Header>, limits: StoredLimits)
    requires HeadersValid(headers, limits)
    ensures |HeadersJson(headers)| <= 4 * ((limits.maxHeaderBytes + 2) / 3) + 33 * limits.maxHeaders + 2
  {
    HeadersTailSize(headers);
    if headers != [] { assert |HeadersJson(headers)| == |HeadersTail(headers)|; }
  }

  lemma IntSize(i: int)
    requires 0 <= i <= U64_MAX
    ensures |JsonInt(i)| <= 20
  {
    U64HasTwentyDigits(i);
  }

  lemma DeliveryJsonSize(delivery: Delivery, rest: Text, limits: StoredLimits)
    requires DeliveryValid(delivery, limits) && delivery.receivedAt <= I64_MAX
    ensures |DeliveryJson(delivery, rest)|
         <= |rest| + 4 * ((limits.maxBodyBytes + 2) / 3) + 4 * ((limits.maxHeaderBytes + 2) / 3)
            + 33 * limits.maxHeaders + 2 * (limits.maxRouteBytes + limits.maxSourceIdBytes) + 200
  {
    LabelSize(delivery.route, limits.maxRouteBytes);
    LabelSize(delivery.sourceId, limits.maxSourceIdBytes);
    IntSize(delivery.receivedAt);
    HeadersJsonSize(delivery.headers, limits);
    Base64JsonSize(delivery.body, limits.maxBodyBytes);
  }

  lemma StateJsonSize(state: State, rest: Text)
    requires match state
             case Pending(availableAt) => 0 <= availableAt <= I64_MAX
             case Claimed(owner, expiresAt) => ValidOwner(owner) && 0 < expiresAt <= I64_MAX
    ensures |StateJson(state, rest)| <= 200 + |rest|
  {
    match state
    case Pending(availableAt) => IntSize(availableAt);
    case Claimed(owner, expiresAt) =>
      IntSize(expiresAt);
      EscapeKeepsPlain(owner);
  }

  lemma CountersJsonSize(record: Record, rest: Text)
    requires |record.contentDigest| == 32
    requires record.generation <= U64_MAX && record.attempts <= U64_MAX && record.fence <= U64_MAX
    ensures |CountersJson(record, rest)| <= 300 + |rest|
  {
    EscapeKeepsPlain(Hex(record.contentDigest));
    IntSize(record.generation);
    IntSize(record.attempts);
    IntSize(record.fence);
  }

  /**
   * Whatever a valid row's lifecycle state, its stored frame fits the space
   * reserved for it: both label copies escaped, base64 payloads, per-header
   * overhead, counters and the frame header together.
   */
  lemma RowFitsReservation(sha: Hash, record: Record, key: Text, limits: StoredLimits)
    requires RecordValid(sha, record, key, limits)
    ensures RowBytes(record) <= ExactReservation(limits)
  {
    LabelSize(record.route, limits.maxRouteBytes);
    LabelSize(record.sourceId, limits.maxSourceIdBytes);
    var state := Ascii(",\"state\":") + StateJson(record.state, Ascii("}"));
    var payload := Ascii(",\"delivery\":") + PayloadJson(record.delivery, state);
    StateJsonSize(record.state, Ascii("}"));
    DeliveryJsonSize(record.delivery.value, state, limits);
    CountersJsonSize(record, payload);
    assert |RowJson(record)| <= 4 * ((limits.maxBodyBytes + 2) / 3)
      + 4 * ((limits.maxHeaderBytes + 2) / 3) + 33 * limits.maxHeaders
      + 4 * (limits.maxRouteBytes + limits.maxSourceIdBytes) + 1_000;
  }
}

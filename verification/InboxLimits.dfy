/** The inbox ceilings (controller/service/src/limits.rs). */
module InboxLimits {
  import opened Machine

  const MAX_INBOX_RECORDS: nat := 1_024
  const MAX_INBOX_BYTES: nat := 134_217_728
  const MAX_INBOX_RECORD_BYTES: nat := 16_777_216
  const RECORD_FIXED_BYTES: nat := 65_536
  const HEADER_RECORD_BYTES: nat := 256
  const LABEL_RECORD_MULTIPLIER: nat := 4

  datatype InboxError = Configuration | InvalidDelivery | Conflict | Full | Clock | Corrupt | Io

  datatype RequestedLimits = RequestedLimits(
    leaseDuration: Duration,
    maxRecords: nat,
    maxBytes: nat,
    maxRecordBytes: nat,
    maxBodyBytes: nat,
    maxHeaders: nat,
    maxHeaderBytes: nat,
    maxRouteBytes: nat,
    maxSourceIdBytes: nat)

  datatype StoredLimits = StoredLimits(
    leaseMillis: nat,
    maxRecords: nat,
    maxBytes: nat,
    maxRecordBytes: nat,
    maxBodyBytes: nat,
    maxHeaders: nat,
    maxHeaderBytes: nat,
    maxRouteBytes: nat,
    maxSourceIdBytes: nat)
  {
    function RecordReservation(): Option<nat>
    {
      Reserve(maxBodyBytes, maxHeaders, maxHeaderBytes, maxRouteBytes, maxSourceIdBytes)
    }
  }

  function Base64Size(bytes: nat): Option<nat>
  {
    var padded :- AddU64(bytes, 2);
    MulU64(padded / 3, 4)
  }

  function Reserve(
    maxBodyBytes: nat, maxHeaders: nat, maxHeaderBytes: nat, maxRouteBytes: nat,
    maxSourceIdBytes: nat): Option<nat>
  {
    var body :- Base64Size(maxBodyBytes);
    var headerBytes :- Base64Size(maxHeaderBytes);
    var encoded :- AddU64(body, headerBytes);
    var headers :- MulU64(maxHeaders, HEADER_RECORD_BYTES);
    var withHeaders :- AddU64(encoded, headers);
    var labelBytes :- AddU64(maxRouteBytes, maxSourceIdBytes);
    var labels :- MulU64(labelBytes, LABEL_RECORD_MULTIPLIER);
    var withLabels :- AddU64(withHeaders, labels);
    AddU64(withLabels, RECORD_FIXED_BYTES)
  }

  function Read(limits: RequestedLimits): Result<StoredLimits, InboxError>
  {
    var leaseMillis := SignedMillis(limits.leaseDuration);
    var reservation := Reserve(
      limits.maxBodyBytes, limits.maxHeaders, limits.maxHeaderBytes,
      limits.maxRouteBytes, limits.maxSourceIdBytes);
    if leaseMillis.None? || leaseMillis.value == 0 || reservation.None? then
      Err(Configuration)
    else if
      || !(1 <= limits.maxRecords <= MAX_INBOX_RECORDS)
      || !(1 <= limits.maxBytes <= MAX_INBOX_BYTES)
      || !(1 <= limits.maxRecordBytes <= MAX_INBOX_RECORD_BYTES)
      || 0 in [limits.maxBodyBytes, limits.maxHeaders, limits.maxHeaderBytes,
               limits.maxRouteBytes, limits.maxSourceIdBytes]
      || reservation.value > limits.maxRecordBytes
      || MulU64(reservation.value, 2).None?
      || MulU64(reservation.value, 2).value > limits.maxBytes
    then
      Err(Configuration)
    else
      Ok(StoredLimits(
           leaseMillis.value, limits.maxRecords, limits.maxBytes, limits.maxRecordBytes,
           limits.maxBodyBytes, limits.maxHeaders, limits.maxHeaderBytes,
           limits.maxRouteBytes, limits.maxSourceIdBytes))
  }

  /** The reservation in unbounded arithmetic. */
  function ExactReservation(limits: StoredLimits): nat
  {
    4 * ((limits.maxBodyBytes + 2) / 3)
    + 4 * ((limits.maxHeaderBytes + 2) / 3)
    + 256 * limits.maxHeaders
    + 4 * (limits.maxRouteBytes + limits.maxSourceIdBytes)
    + 65_536
  }

  /** What an accepted configuration means, free of any machine width. */
  ghost predicate Accepted(limits: StoredLimits)
  {
    && 1 <= limits.leaseMillis <= I64_MAX
    && 1 <= limits.maxRecords <= MAX_INBOX_RECORDS
    && 1 <= limits.maxBytes <= MAX_INBOX_BYTES
    && 1 <= limits.maxRecordBytes <= MAX_INBOX_RECORD_BYTES
    && limits.maxBodyBytes > 0 && limits.maxHeaders > 0 && limits.maxHeaderBytes > 0
    && limits.maxRouteBytes > 0 && limits.maxSourceIdBytes > 0
    && ExactReservation(limits) <= limits.maxRecordBytes
    && 2 * ExactReservation(limits) <= limits.maxBytes
  }

  lemma Base64SizeIsExact(bytes: nat)
    ensures Base64Size(bytes).Some? ==> Base64Size(bytes).value == 4 * ((bytes + 2) / 3)
    ensures 4 * ((bytes + 2) / 3) <= U64_MAX - 65_536 ==> Base64Size(bytes).Some?
  {
  }

  /** The checked chain is the exact sum whenever no step can leave 64 bits. */
  lemma ReservationIsExact(limits: StoredLimits)
    ensures ExactReservation(limits) <= U64_MAX - 65_536
            ==> limits.RecordReservation() == Some(ExactReservation(limits))
    ensures limits.RecordReservation().Some?
            ==> limits.RecordReservation().value == ExactReservation(limits)
  {
    hide Base64Size;
    Base64SizeIsExact(limits.maxBodyBytes);
    Base64SizeIsExact(limits.maxHeaderBytes);
    var body, headers := 4 * ((limits.maxBodyBytes + 2) / 3), 4 * ((limits.maxHeaderBytes + 2) / 3);
    assert ExactReservation(limits) == body + headers + 256 * limits.maxHeaders
      + 4 * (limits.maxRouteBytes + limits.maxSourceIdBytes) + 65_536;
  }

  /** Overflow never turns a good configuration away nor lets a bad one in. */
  lemma ReadAcceptsExactly(requested: RequestedLimits)
    ensures var asked := StoredLimits(
                           requested.leaseDuration.Millis(), requested.maxRecords,
                           requested.maxBytes, requested.maxRecordBytes, requested.maxBodyBytes,
                           requested.maxHeaders, requested.maxHeaderBytes,
                           requested.maxRouteBytes, requested.maxSourceIdBytes);
            Read(requested) == if Accepted(asked) then Ok(asked) else Err(Configuration)
  {
    var asked := StoredLimits(
      requested.leaseDuration.Millis(), requested.maxRecords, requested.maxBytes,
      requested.maxRecordBytes, requested.maxBodyBytes, requested.maxHeaders,
      requested.maxHeaderBytes, requested.maxRouteBytes, requested.maxSourceIdBytes);
    ReservationIsExact(asked);
  }
}

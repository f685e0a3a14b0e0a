/** The stored frame shared by inbox and ledger files (controller/src/frame.rs). */
module Frame {
  import opened Machine
  import opened Bytes
  import opened Deliveries

  const VERSION: Byte := 1

  datatype FrameFormat = FrameFormat(magic: Text, domain: Text, maximum: nat)

  /** One stored type: its JSON writer and reader, its validation, and its name for corruption. */
  datatype Codec<!T, !E> = Codec(
    write: T -> Option<Text>,
    read: Text -> Option<T>,
    validate: T -> Result<(), E>,
    corrupt: E)

  function PayloadDigest(sha: Hash, format: FrameFormat, payload: Text): (digest: Text)
    ensures |digest| == 32
  {
    sha(format.domain + [0] + payload)
  }

  function Header(sha: Hash, format: FrameFormat, payload: Text): (header: Text)
    ensures |header| == |format.magic| + 41
  {
    format.magic + ([VERSION] + (BigEndian(|payload|, 8) + PayloadDigest(sha, format, payload)))
  }

  /** The frame a value is stored as, or why it cannot be stored. */
  function Encoded<T, E>(sha: Hash, format: FrameFormat, codec: Codec<T, E>, value: T): Result<Text, E>
  {
    var _ :- codec.validate(value);
    var payload := codec.write(value);
    if payload.None? || |format.magic| + 41 + |payload.value| > format.maximum then
      Err(codec.corrupt)
    else
      Ok(Header(sha, format, payload.value) + payload.value)
  }

  /** Builds the frame piece by piece. */
  method Encode<T, E>(sha: Hash, format: FrameFormat, codec: Codec<T, E>, value: T)
    returns (r: Result<Text, E>)
    ensures r == Encoded(sha, format, codec, value)
  {
    var checked := codec.validate(value);
    if checked.Err? { return Err(checked.error); }
    var payload := codec.write(value);
    if payload.None? { return Err(codec.corrupt); }
    var frameLength := |format.magic| + 1 + 8 + 32 + |payload.value|;
    if frameLength > format.maximum { return Err(codec.corrupt); }
    var frame := [];
    frame := frame + format.magic;
    frame := frame + [VERSION];
    frame := frame + BigEndian(|payload.value|, 8);
    frame := frame + PayloadDigest(sha, format, payload.value);
    assert frame == Header(sha, format, payload.value);
    frame := frame + payload.value;
    r := Ok(frame);
  }

  function Decode<T, E>(sha: Hash, format: FrameFormat, codec: Codec<T, E>, frame: Text): Result<T, E>
  {
    var m := |format.magic|;
    if |frame| > format.maximum || |frame| < m + 41 || frame[..m] != format.magic
       || frame[m] != VERSION
    then
      Err(codec.corrupt)
    else
      var payload := frame[m + 41..];
      if |payload| != FromBigEndian(frame[m + 1..m + 9])
         || frame[m + 9..m + 41] != PayloadDigest(sha, format, payload)
         || codec.read(payload).None?
      then
        Err(codec.corrupt)
      else
        var value := codec.read(payload).value;
        var _ :- codec.validate(value);
        if codec.write(value) != Some(payload) then Err(codec.corrupt) else Ok(value)
  }

  /** The header of a frame splits back into its parts. */
  lemma HeaderParts(sha: Hash, format: FrameFormat, payload: Text, frame: Text)
    requires |payload| <= U64_MAX && frame == Header(sha, format, payload) + payload
    ensures var m := |format.magic|;
            && |frame| == m + 41 + |payload| && frame[..m] == format.magic && frame[m] == VERSION
            && FromBigEndian(frame[m + 1..m + 9]) == |payload|
            && frame[m + 9..m + 41] == PayloadDigest(sha, format, payload)
            && frame[m + 41..] == payload
  {
    hide PayloadDigest, BigEndian, FromBigEndian;
    var m := |format.magic|;
    var length, digest := BigEndian(|payload|, 8), PayloadDigest(sha, format, payload);
    assert frame == format.magic + [VERSION] + length + digest + payload;
    assert frame[m + 1..m + 9] == length;
    assert frame[m + 9..m + 41] == digest;
    Pow256Widths();
    BigEndianReadsBack(|payload|, 8);
  }

  /** Reading a written frame gives the value back, wherever JSON itself does. */
  lemma DecodeOfEncode<T, E>(sha: Hash, format: FrameFormat, codec: Codec<T, E>, value: T)
    requires format.maximum <= U64_MAX
    requires codec.write(value).Some? ==> codec.read(codec.write(value).value) == Some(value)
    requires Encoded(sha, format, codec, value).Ok?
    ensures Decode(sha, format, codec, Encoded(sha, format, codec, value).value) == Ok(value)
  {
    hide Header, PayloadDigest, BigEndian, FromBigEndian;
    var payload := codec.write(value).value;
    HeaderParts(sha, format, payload, Encoded(sha, format, codec, value).value);
  }

  lemma Reassemble(frame: Text, m: nat)
    requires m + 41 <= |frame|
    ensures frame == (frame[..m] + ([frame[m]] + (frame[m + 1..m + 9] + frame[m + 9..m + 41])))
                     + frame[m + 41..]
  {
    var tail := frame[m + 1..m + 9] + frame[m + 9..m + 41];
    assert tail == frame[m + 1..m + 41];
    assert [frame[m]] + tail == frame[m..m + 41];
    assert frame[..m] + frame[m..m + 41] == frame[..m + 41];
  }

  /** Any accepted frame is, byte for byte, the one its value is stored as. */
  lemma EncodeOfDecode<T, E>(sha: Hash, format: FrameFormat, codec: Codec<T, E>, frame: Text)
    requires Decode(sha, format, codec, frame).Ok?
    ensures Encoded(sha, format, codec, Decode(sha, format, codec, frame).value) == Ok(frame)
  {
    hide PayloadDigest, BigEndian, FromBigEndian;
    var m := |format.magic|;
    var payload := frame[m + 41..];
    BigEndianWritesBack(frame[m + 1..m + 9]);
    Reassemble(frame, m);
  }

  /** A frame cut short or written past its end is never accepted. */
  lemma TornFrameIsRefused<T, E>(
    sha: Hash, format: FrameFormat, codec: Codec<T, E>, frame: Text, torn: Text)
    requires Decode(sha, format, codec, frame).Ok?
    requires torn != frame && (torn <= frame || frame <= torn)
    ensures Decode(sha, format, codec, torn).Err?
  {
    hide PayloadDigest, FromBigEndian;
    var m := |format.magic|;
    if |torn| >= m + 41 {
      assert torn[m + 1..m + 9] == frame[m + 1..m + 9];
      assert |torn| != |frame|;
    }
  }

  /** The bytes a frame's digest is taken over. */
  ghost function Digested(domain: Text, frame: Text, m: nat): Text
    requires m + 41 <= |frame|
  {
    domain + [0] + frame[m + 41..]
  }

  /**
   * Two accepted frames with the same header are the same frame, unless the bytes their
   * digests are taken over collide: no change to a payload alone goes unnoticed.
   */
  lemma AlteredPayloadIsRefused<T, E>(
    sha: Hash, format: FrameFormat, codec: Codec<T, E>, frame: Text, altered: Text)
    requires |frame| == |altered| >= |format.magic| + 41 && frame != altered
    requires frame[..|format.magic| + 41] == altered[..|format.magic| + 41]
    requires
      var p, q := Digested(format.domain, frame, |format.magic|), Digested(format.domain, altered, |format.magic|);
      sha(p) == sha(q) ==> p == q
    requires Decode(sha, format, codec, frame).Ok?
    ensures Decode(sha, format, codec, altered).Err?
  {
    hide FromBigEndian;
    var m := |format.magic|;
    var p, q := Digested(format.domain, frame, m), Digested(format.domain, altered, m);
    assert frame[m + 9..m + 41] == frame[..m + 41][m + 9..] && altered[m + 9..m + 41] == altered[..m + 41][m + 9..];
    assert frame == frame[..m + 41] + frame[m + 41..];
    assert altered == altered[..m + 41] + altered[m + 41..];
    assert frame[m + 41..] != altered[m + 41..];
    assert p[|format.domain| + 1..] == frame[m + 41..] && q[|format.domain| + 1..] == altered[m + 41..];
  }

  /** A frame of one domain is refused under another of the same magic, unless the digested bytes collide. */
  lemma ForeignFrameIsRefused<T, E, U>(
    sha: Hash, format: FrameFormat, other: FrameFormat, codec: Codec<T, E>, reader: Codec<U, E>, frame: Text)
    requires other.magic == format.magic && |other.domain| == |format.domain| && other.domain != format.domain
    requires Decode(sha, format, codec, frame).Ok?
    requires
      var p, q := Digested(format.domain, frame, |format.magic|), Digested(other.domain, frame, |format.magic|);
      sha(p) == sha(q) ==> p == q
    ensures Decode(sha, other, reader, frame).Err?
  {
    hide FromBigEndian;
    var m := |format.magic|;
    var p, q := Digested(format.domain, frame, m), Digested(other.domain, frame, m);
    assert p[..|format.domain|] == format.domain && q[..|other.domain|] == other.domain;
  }
}

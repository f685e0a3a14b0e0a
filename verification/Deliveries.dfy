/** Canonical raw deliveries (controller/service/src/delivery.rs). */
module Deliveries {
  import opened Machine
  import opened Bytes
  import opened Sorting
  import opened Json
  import opened InboxLimits

  datatype Header = Header(name: Text, value: Text)

  /** A delivery as received, and, once normalized, as stored. */
  datatype Delivery = Delivery(
    route: Text,
    sourceId: Text,
    receivedAt: int,
    headers: seq<Header>,
    body: Text)

  predicate ValidLabel(value: Text, maximum: nat)
  {
    value != [] && |value| <= maximum && forall i :: 0 <= i < |value| ==> 0x21 <= value[i] <= 0x7E
  }

  predicate Uppercase(b: Byte) { 65 <= b <= 90 }

  /** A `token` byte of section 5.6.2 of RFC 9110. */
  predicate TokenByte(b: Byte)
  {
    || 48 <= b <= 57 || Uppercase(b) || 97 <= b <= 122
    || b in [0x21, 0x23, 0x24, 0x25, 0x26, 0x27, 0x2A, 0x2B, 0x2D, 0x2E, 0x5E, 0x5F, 0x60, 0x7C, 0x7E]
  }

  predicate ValidHeader(header: Header)
  {
    && header.name != []
    && (forall i :: 0 <= i < |header.name| ==> TokenByte(header.name[i]))
    && (forall i :: 0 <= i < |header.value| ==> header.value[i] !in [0, 13, 10])
  }

  function HeaderBytes(headers: seq<Header>): (bytes: nat)
  {
    if headers == [] then 0
    else |headers[0].name| + |headers[0].value| + HeaderBytes(headers[1..])
  }

  predicate HeadersValid(headers: seq<Header>, limits: StoredLimits)
  {
    && |headers| <= limits.maxHeaders
    && (forall i :: 0 <= i < |headers| ==> ValidHeader(headers[i]))
    && HeaderBytes(headers) <= limits.maxHeaderBytes
  }

  lemma {:induction false} HeaderBytesTake(headers: seq<Header>, n: nat)
    requires n < |headers|
    ensures HeaderBytes(headers[..n + 1])
         == HeaderBytes(headers[..n]) + |headers[n].name| + |headers[n].value|
    ensures HeaderBytes(headers[..n]) <= HeaderBytes(headers)
  {
    if n == 0 {
      assert headers[..1] == [headers[0]];
    } else {
      HeaderBytesTake(headers[1..], n - 1);
      assert headers[..n + 1][1..] == headers[1..][..n] && headers[..n][1..] == headers[1..][..n - 1];
    }
  }

  /** The running total refuses exactly when the whole list is out of bounds. */
  method ValidateHeaders(headers: seq<Header>, limits: StoredLimits)
    returns (r: Result<(), InboxError>)
    requires limits.maxHeaderBytes <= U64_MAX
    ensures r == if HeadersValid(headers, limits) then Ok(()) else Err(InvalidDelivery)
  {
    if |headers| > limits.maxHeaders { return Err(InvalidDelivery); }
    var headerBytes := 0;
    for i := 0 to |headers|
      invariant headerBytes == HeaderBytes(headers[..i]) <= limits.maxHeaderBytes
      invariant forall j :: 0 <= j < i ==> ValidHeader(headers[j])
    {
      if !ValidHeader(headers[i]) { return Err(InvalidDelivery); }
      HeaderBytesTake(headers, i);
      if i + 1 < |headers| { HeaderBytesTake(headers, i + 1); }
      else { assert headers[..i + 1] == headers; }
      var named := AddU64(headerBytes, |headers[i].name|);
      if named.None? { return Err(InvalidDelivery); }
      var valued := AddU64(named.value, |headers[i].value|);
      if valued.None? || valued.value > limits.maxHeaderBytes { return Err(InvalidDelivery); }
      headerBytes := valued.value;
    }
    assert headers[..|headers|] == headers;
    r := Ok(());
  }

  function LowerByte(b: Byte): Byte { if Uppercase(b) then b + 32 else b }

  function Lower(name: Text): (lower: Text)
    ensures |lower| == |name|
    ensures forall i :: 0 <= i < |name| ==> lower[i] == LowerByte(name[i])
  {
    seq(|name|, i requires 0 <= i < |name| => LowerByte(name[i]))
  }

  function Lowered(headers: seq<Header>): (lowered: seq<Header>)
    ensures |lowered| == |headers|
    ensures forall i :: 0 <= i < |headers| ==>
      lowered[i] == Header(Lower(headers[i].name), headers[i].value)
  {
    seq(|headers|, i requires 0 <= i < |headers| => Header(Lower(headers[i].name), headers[i].value))
  }

  /** Name first, then value: the sort's comparison and the reader's pair order. */
  predicate HeaderLeq(a: Header, b: Header)
  {
    if a.name == b.name then LexLeq(a.value, b.value) else LexLeq(a.name, b.name)
  }

  lemma HeaderOrder()
    ensures TotalPreorder(HeaderLeq) && Antisymmetric(HeaderLeq)
  {
    LexIsTotalOrder();
  }

  predicate LowercaseName(name: Text)
  {
    forall i :: 0 <= i < |name| ==> !Uppercase(name[i])
  }

  predicate AdjacentSorted(headers: seq<Header>)
  {
    forall i :: 0 <= i < |headers| - 1 ==> HeaderLeq(headers[i], headers[i + 1])
  }

  predicate EnvelopeValid(delivery: Delivery, limits: StoredLimits)
  {
    && delivery.receivedAt >= 0
    && ValidLabel(delivery.route, limits.maxRouteBytes)
    && ValidLabel(delivery.sourceId, limits.maxSourceIdBytes)
    && |delivery.body| <= limits.maxBodyBytes
  }

  /** `validate_delivery`: what a stored delivery must satisfy. */
  predicate DeliveryValid(delivery: Delivery, limits: StoredLimits)
  {
    && EnvelopeValid(delivery, limits)
    && HeadersValid(delivery.headers, limits)
    && (forall i :: 0 <= i < |delivery.headers| ==> LowercaseName(delivery.headers[i].name))
    && AdjacentSorted(delivery.headers)
  }

  function SortedHeaders(headers: seq<Header>): (sorted: seq<Header>)
    ensures SortedBy(sorted, HeaderLeq) && multiset(sorted) == multiset(headers)
    ensures |sorted| == |headers|
  {
    HeaderOrder();
    SortBy(headers, HeaderLeq)
  }

  function Normalize(incoming: Delivery, limits: StoredLimits): Result<Delivery, InboxError>
  {
    if EnvelopeValid(incoming, limits) && HeadersValid(incoming.headers, limits) then
      Ok(incoming.(headers := SortedHeaders(Lowered(incoming.headers))))
    else
      Err(InvalidDelivery)
  }

  function UpperLetters(): string { "ABCDEFGHIJKLMNOPQRSTUVWXYZ" }

  function LowerLetters(): string { "abcdefghijklmnopqrstuvwxyz" }

  lemma UpperAt(i: nat)
    requires i < 26
    ensures |UpperLetters()| == 26 && UpperLetters()[i] as int == 65 + i
  {
  }

  lemma LowerAt(i: nat)
    requires i < 26
    ensures |LowerLetters()| == 26 && LowerLetters()[i] as int == 97 + i
  {
  }

  /** Lowering maps one alphabet onto the other and leaves every other byte alone. */
  lemma LowersByAlphabet(b: Byte)
    ensures |UpperLetters()| == |LowerLetters()| == 26
    ensures forall i :: 0 <= i < 26 && UpperLetters()[i] == b as char ==> LowerByte(b) as char == LowerLetters()[i]
    ensures b as char !in UpperLetters() ==> LowerByte(b) == b
  {
    hide UpperLetters, LowerLetters;
    UpperAt(0);
    LowerAt(0);
    forall i | 0 <= i < 26 ensures UpperLetters()[i] as int == 65 + i && LowerLetters()[i] as int == 97 + i {
      UpperAt(i);
      LowerAt(i);
    }
    if Uppercase(b) { assert UpperLetters()[b - 65] == b as char; }
  }

  /** Neither empty nor too long, and every byte a visible character. */
  ghost predicate VisibleLabel(text: Text, maximum: nat)
  {
    1 <= |text| <= maximum && forall i :: 0 <= i < |text| ==> '!' <= text[i] as char <= '~'
  }

  /** A `tchar` of section 5.6.2 of RFC 9110. */
  ghost predicate TokenChar(c: char)
  {
    c in "!#$%&'*+-.^_`|~" || '0' <= c <= '9' || 'a' <= c <= 'z' || 'A' <= c <= 'Z'
  }

  ghost predicate FieldLine(header: Header)
  {
    && |header.name| > 0 && (forall i :: 0 <= i < |header.name| ==> TokenChar(header.name[i] as char))
    && forall i :: 0 <= i < |header.value| ==> header.value[i] as char !in "\0\r\n"
  }

  lemma FieldLineMeans(header: Header)
    ensures FieldLine(header) <==> ValidHeader(header)
  {
    forall b: Byte ensures TokenChar(b as char) <==> TokenByte(b) {}
    forall b: Byte ensures b as char !in "\0\r\n" <==> b !in [0, 13, 10] {}
  }

  /** What the inbox accepts, spelled in characters: the labels, the field lines and the ceilings. */
  lemma NormalizesExactly(incoming: Delivery, limits: StoredLimits)
    ensures Normalize(incoming, limits).Ok? <==>
      && 0 <= incoming.receivedAt && |incoming.body| <= limits.maxBodyBytes
      && VisibleLabel(incoming.route, limits.maxRouteBytes)
      && VisibleLabel(incoming.sourceId, limits.maxSourceIdBytes)
      && |incoming.headers| <= limits.maxHeaders && HeaderBytes(incoming.headers) <= limits.maxHeaderBytes
      && forall i :: 0 <= i < |incoming.headers| ==> FieldLine(incoming.headers[i])
    ensures Normalize(incoming, limits).Ok? ==>
      var stored := Normalize(incoming, limits).value;
      && stored == incoming.(headers := stored.headers) && SortedBy(stored.headers, HeaderLeq)
      && multiset(stored.headers) == multiset(Lowered(incoming.headers))
  {
    hide ValidHeader, FieldLine, Lowered, HeaderLeq;
    forall i | 0 <= i < |incoming.headers|
      ensures FieldLine(incoming.headers[i]) <==> ValidHeader(incoming.headers[i])
    {
      FieldLineMeans(incoming.headers[i]);
    }
  }

  lemma {:induction false} HeaderBytesOfSplit(a: seq<Header>, b: seq<Header>)
    ensures HeaderBytes(a + b) == HeaderBytes(a) + HeaderBytes(b)
  {
    if a == [] {
      assert a + b == b;
    } else {
      HeaderBytesOfSplit(a[1..], b);
      assert (a + b)[1..] == a[1..] + b;
    }
  }

  lemma TakeOut<T>(s: seq<T>, k: nat)
    requires k < |s|
    ensures s == s[..k] + ([s[k]] + s[k + 1..])
    ensures multiset(s[..k] + s[k + 1..]) == multiset(s) - multiset{s[k]}
  {
    assert s == s[..k] + ([s[k]] + s[k + 1..]);
    assert multiset(s) == multiset(s[..k]) + (multiset{s[k]} + multiset(s[k + 1..]));
  }

  lemma HeaderBytesWithout(headers: seq<Header>, k: nat)
    requires k < |headers|
    ensures HeaderBytes(headers)
         == |headers[k].name| + |headers[k].value| + HeaderBytes(headers[..k] + headers[k + 1..])
  {
    var before, after := headers[..k], headers[k + 1..];
    HeaderBytesOfSplit(before, after);
    HeaderBytesOfSplit(before, [headers[k]] + after);
    assert ([headers[k]] + after)[1..] == after;
    assert headers == before + ([headers[k]] + after);
  }

  /** Reordering headers does not change their total size. */
  lemma {:induction false} HeaderBytesOfPermutation(a: seq<Header>, b: seq<Header>)
    requires multiset(a) == multiset(b)
    ensures HeaderBytes(a) == HeaderBytes(b)
  {
    SameSize(a, b);
    if a != [] {
      assert a[0] in multiset(b);
      var k :| 0 <= k < |b| && b[k] == a[0];
      TakeOut(a, 0);
      TakeOut(b, k);
      assert a[..0] + a[1..] == a[1..];
      HeaderBytesOfPermutation(a[1..], b[..k] + b[k + 1..]);
      HeaderBytesWithout(b, k);
    }
  }

  lemma {:induction false} HeaderBytesOfLowered(headers: seq<Header>)
    ensures HeaderBytes(Lowered(headers)) == HeaderBytes(headers)
  {
    if headers != [] {
      HeaderBytesOfLowered(headers[1..]);
      assert Lowered(headers)[1..] == Lowered(headers[1..]);
    }
  }

  /** Every normalized delivery passes the check that guards stored rows. */
  lemma NormalizedIsValid(incoming: Delivery, limits: StoredLimits)
    requires Normalize(incoming, limits).Ok?
    ensures DeliveryValid(Normalize(incoming, limits).value, limits)
  {
    var lowered := Lowered(incoming.headers);
    var sorted := SortedHeaders(lowered);
    HeaderBytesOfLowered(incoming.headers);
    HeaderBytesOfPermutation(lowered, sorted);
    forall i | 0 <= i < |sorted| ensures ValidHeader(sorted[i]) && LowercaseName(sorted[i].name) {
      assert sorted[i] in multiset(lowered);
      var k :| 0 <= k < |lowered| && lowered[k] == sorted[i];
      assert ValidHeader(incoming.headers[k]);
    }
  }

  lemma AdjacentIsSorted(headers: seq<Header>, i: nat, j: nat)
    requires AdjacentSorted(headers) && i < j < |headers|
    ensures HeaderLeq(headers[i], headers[j])
    decreases j
  {
    HeaderOrder();
    if i + 1 < j { AdjacentIsSorted(headers, i, j - 1); }
    assert HeaderLeq(headers[j - 1], headers[j - 1 + 1]);
  }

  lemma LowerFixesLowercase(headers: seq<Header>)
    requires forall i :: 0 <= i < |headers| ==> LowercaseName(headers[i].name)
    ensures Lowered(headers) == headers
  {
    forall i | 0 <= i < |headers| ensures Lowered(headers)[i] == headers[i] {
      assert LowercaseName(headers[i].name);
      assert Lower(headers[i].name) == headers[i].name;
    }
  }

  /** Stored deliveries are exactly the fixed points of normalization. */
  lemma ValidIffNormalized(delivery: Delivery, limits: StoredLimits)
    ensures DeliveryValid(delivery, limits) <==> Normalize(delivery, limits) == Ok(delivery)
  {
    if DeliveryValid(delivery, limits) {
      LowerFixesLowercase(delivery.headers);
      HeaderOrder();
      forall i, j | 0 <= i < j < |delivery.headers|
        ensures HeaderLeq(delivery.headers[i], delivery.headers[j])
      {
        AdjacentIsSorted(delivery.headers, i, j);
      }
      SortedIsUnique(SortedHeaders(delivery.headers), delivery.headers, HeaderLeq);
    }
    if Normalize(delivery, limits) == Ok(delivery) { NormalizedIsValid(delivery, limits); }
  }

  // ----- Source key and content digest -----

  /** SHA-256 is a parameter: all that is used of it is its output length. */
  type Hash = h: Text -> Text | forall x: Text :: |h(x)| == 32 witness (x: Text) => seq(32, i => 0)

  const KEY_DOMAIN := "amiss/controller-inbox-source-v1"
  const CONTENT_DOMAIN := "amiss/controller-inbox-content-v1"

  function SourceJson(route: Text, sourceId: Text): Text
  {
    Ascii("{\"route\":") + (JsonString(route) + (Ascii(",\"source_id\":") + (JsonString(sourceId)
    + Ascii("}"))))
  }

  function SourceKey(sha: Hash, route: Text, sourceId: Text): (key: Text)
    ensures |key| == 64 && forall i :: 0 <= i < 64 ==> LowerHex(key[i])
  {
    Hex(sha(Ascii(KEY_DOMAIN) + [0] + SourceJson(route, sourceId)))
  }

  function HeaderJson(header: Header): Text
  {
    Ascii("{\"name\":") + (JsonString(header.name) + (Ascii(",\"value_base64\":")
    + (JsonString(Base64(header.value)) + Ascii("}"))))
  }

  /** The items after the first, each behind a comma, and the closing bracket. */
  function HeadersTail(headers: seq<Header>): Text
  {
    if headers == [] then Ascii("]")
    else Ascii(",") + (HeaderJson(headers[0]) + HeadersTail(headers[1..]))
  }

  function HeadersJson(headers: seq<Header>): Text
  {
    if headers == [] then Ascii("[]")
    else Ascii("[") + (HeaderJson(headers[0]) + HeadersTail(headers[1..]))
  }

  function ContentJson(delivery: Delivery): Text
  {
    Ascii("{\"route\":") + (JsonString(delivery.route) + (Ascii(",\"source_id\":")
    + (JsonString(delivery.sourceId) + (Ascii(",\"headers\":") + (HeadersJson(delivery.headers)
    + (Ascii(",\"body_base64\":") + (JsonString(Base64(delivery.body)) + Ascii("}"))))))))
  }

  function ContentPreimage(delivery: Delivery): Text
  {
    Ascii(CONTENT_DOMAIN) + [0] + ContentJson(delivery)
  }

  function ContentDigest(sha: Hash, delivery: Delivery): (digest: Text)
    ensures |digest| == 32
  {
    sha(ContentPreimage(delivery))
  }

  /** One field, its tag aside, read off the front of a text. */
  lemma FieldDetermined(tag: Text, a: Text, x: Text, b: Text, y: Text)
    requires tag + (JsonString(a) + x) == tag + (JsonString(b) + y)
    ensures a == b && x == y
  {
    SplitAt(tag, JsonString(a) + x, tag, JsonString(b) + y);
    JsonStringDetermined(a, x, b, y);
  }

  lemma PairDetermined(
    first: Text, second: Text, close: Text, a: Text, a': Text, x: Text, b: Text, b': Text, y: Text)
    requires (first + (JsonString(a) + (second + (JsonString(a') + close)))) + x
          == (first + (JsonString(b) + (second + (JsonString(b') + close)))) + y
    ensures a == b && a' == b' && x == y
  {
    hide JsonString;
    var ra, rb := second + (JsonString(a') + (close + x)), second + (JsonString(b') + (close + y));
    Regroup(first, JsonString(a), second, JsonString(a'), close, x);
    Regroup(first, JsonString(b), second, JsonString(b'), close, y);
    FieldDetermined(first, a, ra, b, rb);
    FieldDetermined(second, a', close + x, b', close + y);
    SplitAt(close, x, close, y);
  }

  /** The bytes a key hashes spell exactly one route and one source. */
  lemma SourceJsonDetermined(route: Text, sourceId: Text, route': Text, sourceId': Text)
    ensures SourceJson(route, sourceId) == SourceJson(route', sourceId') <==> route == route' && sourceId == sourceId'
  {
    hide JsonString, Ascii;
    if SourceJson(route, sourceId) == SourceJson(route', sourceId') {
      assert SourceJson(route, sourceId) + [] == SourceJson(route', sourceId') + [];
      PairDetermined(Ascii("{\"route\":"), Ascii(",\"source_id\":"), Ascii("}"),
                     route, sourceId, [], route', sourceId', []);
    }
  }

  function KeyPreimage(route: Text, sourceId: Text): Text
  {
    Ascii(KEY_DOMAIN) + [0] + SourceJson(route, sourceId)
  }

  /** Two sources share a row key if and only if they are the same, unless their key preimages collide. */
  lemma KeysAgreeIffSameSource(sha: Hash, route: Text, sourceId: Text, route': Text, sourceId': Text)
    requires
      var p, q := KeyPreimage(route, sourceId), KeyPreimage(route', sourceId');
      sha(p) == sha(q) ==> p == q
    ensures SourceKey(sha, route, sourceId) == SourceKey(sha, route', sourceId') <==>
      route == route' && sourceId == sourceId'
  {
    hide SourceJson, Ascii, Hex;
    var p, q := KeyPreimage(route, sourceId), KeyPreimage(route', sourceId');
    SourceJsonDetermined(route, sourceId, route', sourceId');
    if SourceKey(sha, route, sourceId) == SourceKey(sha, route', sourceId') {
      HexInjective(sha(p), sha(q));
      SplitPrefix(Ascii(KEY_DOMAIN) + [0], SourceJson(route, sourceId), SourceJson(route', sourceId'));
    }
  }

  lemma HeaderJsonDetermined(a: Header, x: Text, b: Header, y: Text)
    requires HeaderJson(a) + x == HeaderJson(b) + y
    ensures a == b && x == y
  {
    PairDetermined(Ascii("{\"name\":"), Ascii(",\"value_base64\":"), Ascii("}"),
                   a.name, Base64(a.value), x, b.name, Base64(b.value), y);
    Base64Injective(a.value, b.value);
  }

  lemma Punctuation()
    ensures Ascii("]") == [0x5D] && Ascii(",") == [0x2C]
  {
  }

  lemma HeadersTailShape(a: seq<Header>, x: Text)
    ensures (HeadersTail(a) + x)[0] == if a == [] then 0x5D else 0x2C
    ensures HeadersTail(a) + x == if a == [] then [0x5D] + x
                                  else [0x2C] + (HeaderJson(a[0]) + (HeadersTail(a[1..]) + x))
  {
    hide HeaderJson, Ascii;
    Punctuation();
    if a != [] {
      var item, rest := HeaderJson(a[0]), HeadersTail(a[1..]);
      assert [0x2C] + (item + rest) + x == [0x2C] + (item + (rest + x));
    }
  }

  lemma {:induction false} HeadersTailDetermined(a: seq<Header>, x: Text, b: seq<Header>, y: Text)
    requires HeadersTail(a) + x == HeadersTail(b) + y
    ensures a == b && x == y
  {
    HeadersTailShape(a, x);
    HeadersTailShape(b, y);
    if a == [] {
      SplitPrefix([0x5D], x, y);
    } else {
      var ra, rb := HeadersTail(a[1..]) + x, HeadersTail(b[1..]) + y;
      SplitPrefix([0x2C], HeaderJson(a[0]) + ra, HeaderJson(b[0]) + rb);
      HeaderJsonDetermined(a[0], ra, b[0], rb);
      HeadersTailDetermined(a[1..], x, b[1..], y);
      assert a == [a[0]] + a[1..] && b == [b[0]] + b[1..];
    }
  }

  lemma HeadersJsonShape(a: seq<Header>, x: Text)
    ensures a == [] ==> HeadersJson(a) + x == Ascii("[") + (HeadersTail(a) + x)
    ensures a != [] ==>
      HeadersJson(a) + x == Ascii("[") + (HeaderJson(a[0]) + (HeadersTail(a[1..]) + x))
  {
  }

  lemma HeaderJsonHead(a: Header, x: Text)
    ensures (HeaderJson(a) + x)[0] == 0x7B
  {
  }

  lemma HeadersTailHead(x: Text)
    ensures (HeadersTail([]) + x)[0] == 0x5D
  {
  }

  lemma HeadersJsonDetermined(a: seq<Header>, x: Text, b: seq<Header>, y: Text)
    requires HeadersJson(a) + x == HeadersJson(b) + y
    ensures a == b && x == y
  {
    HeadersJsonShape(a, x);
    HeadersJsonShape(b, y);
    var ra := if a == [] then HeadersTail(a) + x else HeaderJson(a[0]) + (HeadersTail(a[1..]) + x);
    var rb := if b == [] then HeadersTail(b) + y else HeaderJson(b[0]) + (HeadersTail(b[1..]) + y);
    SplitAt(Ascii("["), ra, Ascii("["), rb);
    if a == [] { HeadersTailHead(x); } else { HeaderJsonHead(a[0], HeadersTail(a[1..]) + x); }
    if b == [] { HeadersTailHead(y); } else { HeaderJsonHead(b[0], HeadersTail(b[1..]) + y); }
    if a == [] {
      HeadersTailDetermined(a, x, b, y);
    } else {
      HeaderJsonDetermined(a[0], HeadersTail(a[1..]) + x, b[0], HeadersTail(b[1..]) + y);
      HeadersTailDetermined(a[1..], x, b[1..], y);
      assert a == [a[0]] + a[1..] && b == [b[0]] + b[1..];
    }
  }

  lemma ContentFieldsDetermined(
    route: Text, source: Text, headers: Text, body: Text, close: Text, a: Delivery, b: Delivery)
    requires
      route + (JsonString(a.route) + (source + (JsonString(a.sourceId) + (headers
      + (HeadersJson(a.headers) + (body + (JsonString(Base64(a.body)) + close)))))))
      == route + (JsonString(b.route) + (source + (JsonString(b.sourceId) + (headers
      + (HeadersJson(b.headers) + (body + (JsonString(Base64(b.body)) + close)))))))
    ensures a.(receivedAt := 0) == b.(receivedAt := 0)
  {
    var ba, bb := JsonString(Base64(a.body)) + close, JsonString(Base64(b.body)) + close;
    var ha, hb := HeadersJson(a.headers) + (body + ba), HeadersJson(b.headers) + (body + bb);
    var sa, sb := JsonString(a.sourceId) + (headers + ha), JsonString(b.sourceId) + (headers + hb);
    FieldDetermined(route, a.route, source + sa, b.route, source + sb);
    FieldDetermined(source, a.sourceId, headers + ha, b.sourceId, headers + hb);
    SplitAt(headers, ha, headers, hb);
    HeadersJsonDetermined(a.headers, body + ba, b.headers, body + bb);
    FieldDetermined(body, Base64(a.body), close, Base64(b.body), close);
    Base64Injective(a.body, b.body);
  }

  /** The hashed bytes fix route, source, header list and body, and only those. */
  lemma ContentDetermined(a: Delivery, b: Delivery)
    ensures ContentPreimage(a) == ContentPreimage(b)
       <==> a.(receivedAt := 0) == b.(receivedAt := 0)
  {
    TaggedContentDetermined(Ascii(CONTENT_DOMAIN) + [0], a, b);
  }

  lemma TaggedContentDetermined(tag: Text, a: Delivery, b: Delivery)
    ensures tag + ContentJson(a) == tag + ContentJson(b)
       <==> a.(receivedAt := 0) == b.(receivedAt := 0)
  {
    if tag + ContentJson(a) == tag + ContentJson(b) {
      SplitPrefix(tag, ContentJson(a), ContentJson(b));
      ContentJsonDetermined(a, b);
    }
  }

  lemma ContentJsonDetermined(a: Delivery, b: Delivery)
    requires ContentJson(a) == ContentJson(b)
    ensures a.(receivedAt := 0) == b.(receivedAt := 0)
  {
    ContentFieldsDetermined(
      Ascii("{\"route\":"), Ascii(",\"source_id\":"), Ascii(",\"headers\":"),
      Ascii(",\"body_base64\":"), Ascii("}"), a, b);
  }

  lemma SplitPrefix(prefix: Text, x: Text, y: Text)
    requires prefix + x == prefix + y
    ensures x == y
  {
    SplitAt(prefix, x, prefix, y);
  }

  /** Same content up to header order, header-name case and receipt time. */
  ghost predicate SameContent(a: Delivery, b: Delivery)
  {
    && a.route == b.route && a.sourceId == b.sourceId && a.body == b.body
    && multiset(Lowered(a.headers)) == multiset(Lowered(b.headers))
  }

  /** The digest input of accepted deliveries captures exactly their content. */
  lemma DigestCapturesContent(a: Delivery, b: Delivery, limits: StoredLimits)
    requires Normalize(a, limits).Ok? && Normalize(b, limits).Ok?
    ensures ContentPreimage(Normalize(a, limits).value) == ContentPreimage(Normalize(b, limits).value)
       <==> SameContent(a, b)
  {
    var m, n := Normalize(a, limits).value, Normalize(b, limits).value;
    HeaderOrder();
    if SameContent(a, b) {
      SortedIsUnique(m.headers, n.headers, HeaderLeq);
    }
    ContentDetermined(m, n);
  }
}

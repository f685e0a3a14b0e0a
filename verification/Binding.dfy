/** The request binding's hashed bytes (controller/src/ingress/binding.rs). */
module Binding {
  import opened Machine
  import opened Bytes
  import opened Deliveries

  datatype SignedTimePolicy = ReplayOnly | Required(maxAge: Duration)

  datatype DeliveryRoute = DeliveryRoute(
    namespace: Text,
    instance: Text,
    trustSet: Text,
    signedTime: SignedTimePolicy)

  datatype UntrustedDelivery = UntrustedDelivery(
    route: DeliveryRoute,
    receivedAt: int,
    headers: seq<Header>,
    body: Text)

  const DOMAIN := "amiss/controller-ingress-request-v1"
  const TWO_64: int := U64_MAX + 1

  /** The widths the source's types carry. */
  ghost predicate Typed(d: UntrustedDelivery)
  {
    && -TWO_64 <= 2 * d.receivedAt < TWO_64
    && (d.route.signedTime.Required? ==> d.route.signedTime.maxAge.Valid())
  }

  predicate FitsU64(v: Text) { |v| <= U64_MAX }

  /** Whether every length fits the eight bytes that announce it. */
  predicate Representable(d: UntrustedDelivery)
  {
    && FitsU64(d.route.namespace) && FitsU64(d.route.instance) && FitsU64(d.route.trustSet)
    && |d.headers| <= U64_MAX
    && (forall i :: 0 <= i < |d.headers| ==> FitsU64(d.headers[i].name) && FitsU64(d.headers[i].value))
    && FitsU64(d.body)
  }

  /** A length is announced faithfully exactly when it is below 256 to the eighth. */
  lemma FitsExactly(v: Text)
    ensures FitsU64(v) <==> FromBigEndian(BigEndian(|v|, 8)) == |v|
  {
    Pow256Widths();
    if |v| < Pow256(8) { BigEndianReadsBack(|v|, 8); }
    BigEndianWritesBack(BigEndian(|v|, 8));
  }

  function Framed(v: Text): Text { BigEndian(|v|, 8) + v }

  function SignedTimeBytes(policy: SignedTimePolicy): (bytes: Text)
    ensures bytes != []
  {
    match policy
    case ReplayOnly => [0]
    case Required(maxAge) => [1] + (BigEndian(maxAge.secs, 8) + BigEndian(maxAge.nanos, 4))
  }

  /** Two's complement, as `i64::to_be_bytes` writes it. */
  function SignedBytes(i: int): (bytes: Text)
    requires -TWO_64 <= 2 * i < TWO_64
    ensures |bytes| == 8
  {
    BigEndian(if i < 0 then i + TWO_64 else i, 8)
  }

  function HeaderFrames(headers: seq<Header>): Text
  {
    if headers == [] then []
    else Framed(headers[0].name) + (Framed(headers[0].value) + HeaderFrames(headers[1..]))
  }

  /** Everything fed to the hash after the domain tag. */
  function Preimage(d: UntrustedDelivery): Text
    requires Typed(d)
  {
    Framed(d.route.namespace) + (Framed(d.route.instance) + (Framed(d.route.trustSet)
    + (SignedTimeBytes(d.route.signedTime) + (SignedBytes(d.receivedAt)
    + (BigEndian(|d.headers|, 8) + (HeaderFrames(d.headers) + Framed(d.body)))))))
  }

  lemma {:induction false} HeaderFramesAppend(headers: seq<Header>, n: nat)
    requires n < |headers|
    ensures HeaderFrames(headers[..n + 1])
         == HeaderFrames(headers[..n]) + Framed(headers[n].name) + Framed(headers[n].value)
  {
    hide Framed;
    if n == 0 {
      assert headers[..1][1..] == [];
    } else {
      HeaderFramesAppend(headers[1..], n - 1);
      assert headers[..n + 1][1..] == headers[1..][..n];
      assert headers[..n][1..] == headers[1..][..n - 1];
    }
  }

  /** Appending field by field spells the nested concatenation. */
  lemma FlattenFields(
    t: Text, a: Text, b: Text, c: Text, d: Text, e: Text, f: Text, g: Text, h: Text)
    ensures t + a + b + c + d + e + f + g + h == t + (a + (b + (c + (d + (e + (f + (g + h)))))))
  {
    var gh := g + h;
    var fgh := f + gh;
    var efgh := e + fgh;
    var defgh := d + efgh;
    assert t + a + b + c + d + e + f + g + h == t + a + b + c + d + e + f + gh;
    assert t + a + b + c + d + e + f + gh == t + a + b + c + d + e + fgh;
    assert t + a + b + c + d + e + fgh == t + a + b + c + d + efgh;
    assert t + a + b + c + d + efgh == t + a + b + c + defgh;
    assert t + a + b + c + defgh == t + a + b + (c + defgh);
    assert t + a + b + (c + defgh) == t + a + (b + (c + defgh));
    assert t + a + (b + (c + defgh)) == t + (a + (b + (c + defgh)));
  }

  /** Feeds the digest one header after the other. */
  method FeedHeaders(prefix: Text, headers: seq<Header>) returns (fed: Option<Text>)
    ensures fed.Some? <==> forall i :: 0 <= i < |headers| ==> FitsU64(headers[i].name) && FitsU64(headers[i].value)
    ensures fed.Some? ==> fed.value == prefix + HeaderFrames(headers)
  {
    hide Framed, FitsU64;
    var digest := prefix;
    for i := 0 to |headers|
      invariant digest == prefix + HeaderFrames(headers[..i])
      invariant forall j :: 0 <= j < i ==> FitsU64(headers[j].name) && FitsU64(headers[j].value)
    {
      if !FitsU64(headers[i].name) || !FitsU64(headers[i].value) { return None; }
      HeaderFramesAppend(headers, i);
      digest := digest + Framed(headers[i].name);
      digest := digest + Framed(headers[i].value);
    }
    assert headers[..|headers|] == headers;
    fed := Some(digest);
  }

  /** Feeds the digest one field at a time. */
  method Feed(d: UntrustedDelivery) returns (fed: Option<Text>)
    requires Typed(d)
    ensures fed == if Representable(d) then Some((Ascii(DOMAIN) + [0]) + Preimage(d)) else None
  {
    hide Ascii, Framed, FitsU64, SignedTimeBytes, SignedBytes, BigEndian, HeaderFrames;
    if !FitsU64(d.route.namespace) || !FitsU64(d.route.instance) || !FitsU64(d.route.trustSet) {
      return None;
    }
    var digest := Ascii(DOMAIN) + [0];
    digest := digest + Framed(d.route.namespace);
    digest := digest + Framed(d.route.instance);
    digest := digest + Framed(d.route.trustSet);
    digest := digest + SignedTimeBytes(d.route.signedTime);
    digest := digest + SignedBytes(d.receivedAt);
    if |d.headers| > U64_MAX { return None; }
    digest := digest + BigEndian(|d.headers|, 8);
    var framed := FeedHeaders(digest, d.headers);
    if framed.None? || !FitsU64(d.body) { return None; }
    digest := framed.value + Framed(d.body);
    FlattenFields(
      Ascii(DOMAIN) + [0], Framed(d.route.namespace), Framed(d.route.instance),
      Framed(d.route.trustSet), SignedTimeBytes(d.route.signedTime), SignedBytes(d.receivedAt),
      BigEndian(|d.headers|, 8), HeaderFrames(d.headers), Framed(d.body));
    fed := Some(digest);
  }

  // ----- Injectivity -----

  lemma FramedDetermined(a: Text, x: Text, b: Text, y: Text)
    requires FitsU64(a) && FitsU64(b) && Framed(a) + x == Framed(b) + y
    ensures a == b && x == y
  {
    hide BigEndian;
    var la, lb := BigEndian(|a|, 8), BigEndian(|b|, 8);
    assert Framed(a) + x == la + (a + x) && Framed(b) + y == lb + (b + y);
    SplitAt(la, a + x, lb, b + y);
    Pow256Widths();
    BigEndianInjective(|a|, |b|, 8);
    SplitAt(a, x, b, y);
  }

  lemma SignedTimeDetermined(a: SignedTimePolicy, x: Text, b: SignedTimePolicy, y: Text)
    requires a.Required? ==> a.maxAge.Valid()
    requires b.Required? ==> b.maxAge.Valid()
    requires SignedTimeBytes(a) + x == SignedTimeBytes(b) + y
    ensures a == b && x == y
  {
    hide BigEndian;
    assert (SignedTimeBytes(a) + x)[0] == SignedTimeBytes(a)[0];
    assert (SignedTimeBytes(b) + y)[0] == SignedTimeBytes(b)[0];
    SplitAt(SignedTimeBytes(a), x, SignedTimeBytes(b), y);
    if a.Required? {
      SplitAt([1], BigEndian(a.maxAge.secs, 8) + BigEndian(a.maxAge.nanos, 4),
              [1], BigEndian(b.maxAge.secs, 8) + BigEndian(b.maxAge.nanos, 4));
      SplitAt(BigEndian(a.maxAge.secs, 8), BigEndian(a.maxAge.nanos, 4),
              BigEndian(b.maxAge.secs, 8), BigEndian(b.maxAge.nanos, 4));
      Pow256Widths();
      BigEndianInjective(a.maxAge.secs, b.maxAge.secs, 8);
      BigEndianInjective(a.maxAge.nanos, b.maxAge.nanos, 4);
    }
  }

  lemma SignedBytesInjective(a: int, b: int)
    requires -TWO_64 <= 2 * a < TWO_64 && -TWO_64 <= 2 * b < TWO_64
    requires SignedBytes(a) == SignedBytes(b)
    ensures a == b
  {
    hide BigEndian;
    Pow256Widths();
    BigEndianInjective(if a < 0 then a + TWO_64 else a, if b < 0 then b + TWO_64 else b, 8);
  }

  lemma {:induction false} HeaderFramesDetermined(a: seq<Header>, x: Text, b: seq<Header>, y: Text)
    requires |a| == |b| && HeaderFrames(a) + x == HeaderFrames(b) + y
    requires forall i :: 0 <= i < |a| ==> FitsU64(a[i].name) && FitsU64(a[i].value)
    requires forall i :: 0 <= i < |b| ==> FitsU64(b[i].name) && FitsU64(b[i].value)
    ensures a == b && x == y
  {
    hide Framed, FitsU64;
    if a == [] {
      assert HeaderFrames(a) + x == x && HeaderFrames(b) + y == y;
    } else {
      var ra, rb := HeaderFrames(a[1..]) + x, HeaderFrames(b[1..]) + y;
      HeaderFramesUnfold(a, x);
      HeaderFramesUnfold(b, y);
      FramedDetermined(a[0].name, Framed(a[0].value) + ra, b[0].name, Framed(b[0].value) + rb);
      FramedDetermined(a[0].value, ra, b[0].value, rb);
      HeaderFramesDetermined(a[1..], x, b[1..], y);
      assert a == [a[0]] + a[1..] && b == [b[0]] + b[1..];
    }
  }

  lemma HeaderFramesUnfold(a: seq<Header>, x: Text)
    requires a != []
    ensures HeaderFrames(a) + x
         == Framed(a[0].name) + (Framed(a[0].value) + (HeaderFrames(a[1..]) + x))
  {
    hide Framed;
  }

  /**
   * Two deliveries that feed the hash the same bytes are the same delivery:
   * provider, trust set, signed-time policy, receipt time, headers in order, body.
   */
  lemma PreimageInjective(a: UntrustedDelivery, b: UntrustedDelivery)
    requires Typed(a) && Typed(b) && Representable(a) && Representable(b)
    requires Preimage(a) == Preimage(b)
    ensures a == b
  {
    hide Framed, SignedTimeBytes, SignedBytes, BigEndian, HeaderFrames, FitsU64;
    var ha, hb := HeaderFrames(a.headers) + Framed(a.body), HeaderFrames(b.headers) + Framed(b.body);
    var ca, cb := BigEndian(|a.headers|, 8), BigEndian(|b.headers|, 8);
    var ra, rb := SignedBytes(a.receivedAt), SignedBytes(b.receivedAt);
    var sa, sb := SignedTimeBytes(a.route.signedTime), SignedTimeBytes(b.route.signedTime);
    var ta, tb := Framed(a.route.trustSet), Framed(b.route.trustSet);
    var ia, ib := Framed(a.route.instance), Framed(b.route.instance);
    FramedDetermined(a.route.namespace, ia + (ta + (sa + (ra + (ca + ha)))),
                     b.route.namespace, ib + (tb + (sb + (rb + (cb + hb)))));
    FramedDetermined(a.route.instance, ta + (sa + (ra + (ca + ha))),
                     b.route.instance, tb + (sb + (rb + (cb + hb))));
    FramedDetermined(a.route.trustSet, sa + (ra + (ca + ha)), b.route.trustSet, sb + (rb + (cb + hb)));
    SignedTimeDetermined(a.route.signedTime, ra + (ca + ha), b.route.signedTime, rb + (cb + hb));
    SplitAt(ra, ca + ha, rb, cb + hb);
    SignedBytesInjective(a.receivedAt, b.receivedAt);
    SplitAt(ca, ha, cb, hb);
    Pow256Widths();
    BigEndianInjective(|a.headers|, |b.headers|, 8);
    HeaderFramesDetermined(a.headers, Framed(a.body), b.headers, Framed(b.body));
    assert Framed(a.body) + [] == Framed(b.body) + [];
    FramedDetermined(a.body, [], b.body, []);
  }
}

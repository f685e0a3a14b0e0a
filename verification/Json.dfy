/**
 * The compact JSON and base64 text the controller writes: strings escaped by
 * section 7 of RFC 8259, bytes in the padded base64 of section 4 of RFC 4648.
 */
module Json {
  import opened Machine
  import opened Bytes

  const QUOTE: Byte := 0x22
  const BACKSLASH: Byte := 0x5C

  function HexDigit(digit: nat): (d: Byte)
    requires digit < 16
    ensures d != QUOTE && d != BACKSLASH && 0x20 <= d < 0x7F
  {
    if digit < 10 then 48 + digit else 87 + digit
  }

  function Hex(bytes: Text): (text: Text)
    ensures |text| == 2 * |bytes|
    ensures forall i :: 0 <= i < |text| ==> LowerHex(text[i])
  {
    if bytes == [] then []
    else [HexDigit(bytes[0] / 16), HexDigit(bytes[0] % 16)] + Hex(bytes[1..])
  }

  lemma {:induction false} HexInjective(a: Text, b: Text)
    requires Hex(a) == Hex(b)
    ensures a == b
  {
    assert |a| == |b|;
    if a != [] {
      var u, v := Hex(a), Hex(b);
      assert u[0] == HexDigit(a[0] / 16) && v[0] == HexDigit(b[0] / 16);
      assert u[1] == HexDigit(a[0] % 16) && v[1] == HexDigit(b[0] % 16);
      assert u[2..] == Hex(a[1..]) && v[2..] == Hex(b[1..]);
      HexInjective(a[1..], b[1..]);
      assert a == [a[0]] + a[1..] && b == [b[0]] + b[1..];
    }
  }

  predicate LowerHex(b: Byte) { 48 <= b <= 57 || 97 <= b <= 102 }

  function EscapeByte(b: Byte): (e: Text)
    ensures 1 <= |e| <= 6 && e[0] != QUOTE
  {
    if b == QUOTE then [BACKSLASH, QUOTE]
    else if b == BACKSLASH then [BACKSLASH, BACKSLASH]
    else if b == 8 then [BACKSLASH, 0x62]
    else if b == 9 then [BACKSLASH, 0x74]
    else if b == 10 then [BACKSLASH, 0x6E]
    else if b == 12 then [BACKSLASH, 0x66]
    else if b == 13 then [BACKSLASH, 0x72]
    else if b < 0x20 then [BACKSLASH, 0x75, 0x30, 0x30, HexDigit(b / 16), HexDigit(b % 16)]
    else [b]
  }

  function Escape(s: Text): (e: Text)
  {
    if s == [] then [] else EscapeByte(s[0]) + Escape(s[1..])
  }

  function JsonString(s: Text): (json: Text) { [QUOTE] + Escape(s) + [QUOTE] }

  /** Printable ASCII doubles at worst. */
  lemma {:induction false} EscapeDoublesAtMost(s: Text)
    requires forall i :: 0 <= i < |s| ==> 0x20 <= s[i]
    ensures |Escape(s)| <= 2 * |s|
  {
    if s != [] { EscapeDoublesAtMost(s[1..]); }
  }

  predicate Plain(b: Byte) { 0x20 <= b && b != QUOTE && b != BACKSLASH }

  lemma {:induction false} EscapeKeepsPlain(s: Text)
    requires forall i :: 0 <= i < |s| ==> Plain(s[i])
    ensures Escape(s) == s
  {
    if s != [] { EscapeKeepsPlain(s[1..]); }
  }

  /** The escapes are a prefix code: the text after a byte does not matter. */
  lemma EscapeByteDetermined(a: Byte, x: Text, b: Byte, y: Text)
    requires EscapeByte(a) + x == EscapeByte(b) + y
    ensures a == b && x == y
  {
    var u, v := EscapeByte(a) + x, EscapeByte(b) + y;
    assert u[0] == EscapeByte(a)[0] && v[0] == EscapeByte(b)[0];
    if u[0] == BACKSLASH {
      assert u[1] == EscapeByte(a)[1] && v[1] == EscapeByte(b)[1];
      if u[1] == 0x75 {
        assert u[4] == EscapeByte(a)[4] && v[4] == EscapeByte(b)[4];
        assert u[5] == EscapeByte(a)[5] && v[5] == EscapeByte(b)[5];
      }
    }
    assert a == b;
    SplitAt(EscapeByte(a), x, EscapeByte(b), y);
  }

  function Closed(s: Text, rest: Text): (text: Text) { Escape(s) + [QUOTE] + rest }

  lemma ClosedUnfolds(s: Text, rest: Text)
    ensures s == [] ==> Closed(s, rest) == [QUOTE] + rest
    ensures s != [] ==> Closed(s, rest) == EscapeByte(s[0]) + Closed(s[1..], rest)
    ensures Closed(s, rest)[0] == QUOTE <==> s == []
  {
    hide EscapeByte;
    if s == [] {
      assert Escape(s) == [];
    } else {
      assert Escape(s) == EscapeByte(s[0]) + Escape(s[1..]);
      Reassociate(EscapeByte(s[0]), Escape(s[1..]), [QUOTE], rest);
    }
  }

  lemma Reassociate(a: Text, b: Text, c: Text, d: Text)
    ensures (a + b) + c + d == a + (b + c + d)
  {
  }

  lemma {:induction false} EscapeDetermined(a: Text, x: Text, b: Text, y: Text)
    requires Closed(a, x) == Closed(b, y)
    ensures a == b && x == y
  {
    ClosedUnfolds(a, x);
    ClosedUnfolds(b, y);
    if a == [] {
      SplitAt([QUOTE], x, [QUOTE], y);
    } else {
      EscapeByteDetermined(a[0], Closed(a[1..], x), b[0], Closed(b[1..], y));
      EscapeDetermined(a[1..], x, b[1..], y);
      assert a == [a[0]] + a[1..] && b == [b[0]] + b[1..];
    }
  }

  /** A JSON string read off the front of a text is unique, and so is the rest. */
  lemma JsonStringDetermined(a: Text, x: Text, b: Text, y: Text)
    requires JsonString(a) + x == JsonString(b) + y
    ensures a == b && x == y
  {
    assert JsonString(a) + x == [QUOTE] + Closed(a, x);
    assert JsonString(b) + y == [QUOTE] + Closed(b, y);
    SplitAt([QUOTE], Closed(a, x), [QUOTE], Closed(b, y));
    EscapeDetermined(a, x, b, y);
  }

  // ----- Base64 -----

  const PAD: Byte := 0x3D

  function Digit64(v: nat): (d: Byte)
    requires v < 64
    ensures Plain(d) && d != PAD
  {
    if v < 26 then 65 + v
    else if v < 52 then 71 + v
    else if v < 62 then v - 4
    else if v == 62 then 43
    else 47
  }

  /** One full group of three bytes. */
  function Group(x: Byte, y: Byte, z: Byte): (text: Text)
    ensures |text| == 4 && Plain(text[0]) && Plain(text[1]) && Plain(text[2]) && Plain(text[3])
    ensures text[2] != PAD && text[3] != PAD
  {
    [Digit64(x / 4), Digit64(x % 4 * 16 + y / 16), Digit64(y % 16 * 4 + z / 64), Digit64(z % 64)]
  }

  function Base64(s: Text): (text: Text)
    ensures |text| == 4 * ((|s| + 2) / 3)
    ensures forall i :: 0 <= i < |text| ==> Plain(text[i])
  {
    if s == [] then []
    else if |s| == 1 then Group(s[0], 0, 0)[..2] + [PAD, PAD]
    else if |s| == 2 then Group(s[0], s[1], 0)[..3] + [PAD]
    else Group(s[0], s[1], s[2]) + Base64(s[3..])
  }

  lemma Digit64Injective(u: nat, v: nat)
    requires u < 64 && v < 64 && Digit64(u) == Digit64(v)
    ensures u == v
  {
  }

  lemma PackedByte(hi: nat, lo: nat, hi': nat, lo': nat)
    requires lo < 16 && lo' < 16
    ensures hi * 16 + lo == hi' * 16 + lo' ==> hi == hi' && lo == lo'
    ensures lo < 4 && lo' < 4 && hi * 4 + lo == hi' * 4 + lo' ==> hi == hi' && lo == lo'
  {
  }

  /** Two, three or four characters give back one, two or three bytes. */
  lemma GroupDetermined(x: Byte, y: Byte, z: Byte, u: Byte, v: Byte, w: Byte)
    requires Group(x, y, z)[0] == Group(u, v, w)[0]
    requires Group(x, y, z)[1] == Group(u, v, w)[1]
    ensures x == u && y / 16 == v / 16
    ensures Group(x, y, z)[2] == Group(u, v, w)[2] ==> y == v && z / 64 == w / 64
    ensures Group(x, y, z) == Group(u, v, w) ==> y == v && z == w
  {
    Digit64Injective(x / 4, u / 4);
    Digit64Injective(x % 4 * 16 + y / 16, u % 4 * 16 + v / 16);
    PackedByte(x % 4, y / 16, u % 4, v / 16);
    assert x == x / 4 * 4 + x % 4 && u == u / 4 * 4 + u % 4;
    if Group(x, y, z)[2] == Group(u, v, w)[2] {
      Digit64Injective(y % 16 * 4 + z / 64, v % 16 * 4 + w / 64);
      PackedByte(y % 16, z / 64, v % 16, w / 64);
      assert y == y / 16 * 16 + y % 16 && v == v / 16 * 16 + v % 16;
      if Group(x, y, z)[3] == Group(u, v, w)[3] {
        Digit64Injective(z % 64, w % 64);
        assert z == z / 64 * 64 + z % 64 && w == w / 64 * 64 + w % 64;
      }
    }
  }

  lemma Base64Head(s: Text)
    requires s != []
    ensures Base64(s)[2] == PAD <==> |s| == 1
    ensures Base64(s)[3] == PAD <==> |s| <= 2
  {
    hide Group, Plain;
    if |s| == 1 {
      assert Base64(s) == Group(s[0], 0, 0)[..2] + [PAD, PAD];
    } else if |s| == 2 {
      assert Base64(s) == Group(s[0], s[1], 0)[..3] + [PAD];
    } else {
      assert Base64(s) == Group(s[0], s[1], s[2]) + Base64(s[3..]);
    }
  }

  lemma {:induction false} Base64Injective(a: Text, b: Text)
    requires Base64(a) == Base64(b)
    ensures a == b
    decreases |a|
  {
    if a != [] {
      assert b != [];
      Base64Head(a);
      Base64Head(b);
      if |a| == 1 {
        assert Base64(a)[..2] == Group(a[0], 0, 0)[..2] && Base64(b)[..2] == Group(b[0], 0, 0)[..2];
        GroupDetermined(a[0], 0, 0, b[0], 0, 0);
      } else if |a| == 2 {
        assert Base64(a)[..3] == Group(a[0], a[1], 0)[..3];
        assert Base64(b)[..3] == Group(b[0], b[1], 0)[..3];
        GroupDetermined(a[0], a[1], 0, b[0], b[1], 0);
      } else {
        SplitAt(Group(a[0], a[1], a[2]), Base64(a[3..]), Group(b[0], b[1], b[2]), Base64(b[3..]));
        GroupDetermined(a[0], a[1], a[2], b[0], b[1], b[2]);
        Base64Injective(a[3..], b[3..]);
        assert a == [a[0], a[1], a[2]] + a[3..] && b == [b[0], b[1], b[2]] + b[3..];
      }
    }
  }

  // ----- Integers -----

  function Decimal(n: nat): (digits: Text)
  {
    if n < 10 then [48 + n] else Decimal(n / 10) + [48 + n % 10]
  }

  function JsonInt(i: int): (digits: Text)
  {
    if i < 0 then [0x2D] + Decimal(-i) else Decimal(i)
  }

  predicate DigitByte(b: Byte) { 48 <= b <= 57 }

  /** The text goes on with something that is not a digit. */
  predicate Stops(rest: Text) { rest != [] && !DigitByte(rest[0]) }

  lemma {:induction false} DecimalIsDigits(n: nat)
    ensures Decimal(n) != [] && forall i :: 0 <= i < |Decimal(n)| ==> DigitByte(Decimal(n)[i])
  {
    if n >= 10 { DecimalIsDigits(n / 10); }
  }

  lemma {:induction false} DecimalInjective(a: nat, b: nat)
    requires Decimal(a) == Decimal(b)
    ensures a == b
  {
    DecimalIsDigits(a / 10);
    DecimalIsDigits(b / 10);
    var u, v := Decimal(a), Decimal(b);
    assert u[|u| - 1] == 48 + a % 10 && v[|v| - 1] == 48 + b % 10;
    if a >= 10 {
      assert |u| >= 2 && b >= 10;
      assert u[..|u| - 1] == Decimal(a / 10) && v[..|v| - 1] == Decimal(b / 10);
      DecimalInjective(a / 10, b / 10);
    } else {
      assert |v| == 1 && b < 10;
    }
  }

  /** Digits read off the front of a text up to the first other byte are one number. */
  lemma DigitsDetermined(u: Text, x: Text, v: Text, y: Text)
    requires (forall i :: 0 <= i < |u| ==> DigitByte(u[i])) && (forall i :: 0 <= i < |v| ==> DigitByte(v[i]))
    requires Stops(x) && Stops(y) && u + x == v + y
    ensures u == v && x == y
  {
    var text := u + x;
    assert text[|u|] == x[0] && text[|v|] == y[0];
    assert forall i :: 0 <= i < |u| ==> text[i] == u[i];
    assert forall i :: 0 <= i < |v| ==> text[i] == v[i];
    SplitAt(u, x, v, y);
  }

  function Magnitude(i: int): nat { if i < 0 then -i else i }

  lemma JsonIntShape(i: int, rest: Text)
    ensures i < 0 ==> JsonInt(i) + rest == [0x2D] + (Decimal(Magnitude(i)) + rest)
    ensures i >= 0 ==> JsonInt(i) + rest == Decimal(Magnitude(i)) + rest && DigitByte((JsonInt(i) + rest)[0])
  {
    DecimalIsDigits(Magnitude(i));
  }

  lemma JsonIntDetermined(a: int, x: Text, b: int, y: Text)
    requires JsonInt(a) + x == JsonInt(b) + y && Stops(x) && Stops(y)
    ensures a == b && x == y
  {
    hide Decimal, JsonInt;
    var u, v := Decimal(Magnitude(a)), Decimal(Magnitude(b));
    DecimalIsDigits(Magnitude(a));
    DecimalIsDigits(Magnitude(b));
    JsonIntShape(a, x);
    JsonIntShape(b, y);
    assert a < 0 <==> (JsonInt(a) + x)[0] == 0x2D;
    if a < 0 { SplitAt([0x2D], u + x, [0x2D], v + y); }
    DigitsDetermined(u, x, v, y);
    DecimalInjective(Magnitude(a), Magnitude(b));
  }

  function Pow10(e: nat): nat { if e == 0 then 1 else 10 * Pow10(e - 1) }

  lemma {:induction false} DecimalSize(n: nat, e: nat)
    requires e > 0 && n < Pow10(e)
    ensures |Decimal(n)| <= e
  {
    if n >= 10 {
      assert Pow10(1) == 10;
      DecimalSize(n / 10, e - 1);
    }
  }

  lemma U64HasTwentyDigits(n: nat)
    requires n <= U64_MAX
    ensures |Decimal(n)| <= 20
  {
    assert Pow10(4) == 10_000;
    assert Pow10(8) == 10_000 * Pow10(4);
    assert Pow10(12) == 10_000 * Pow10(8);
    assert Pow10(16) == 10_000 * Pow10(12);
    assert Pow10(20) == 10_000 * Pow10(16);
    DecimalSize(n, 20);
  }
}

/** Failure-carrying results and the machine integers of the modelled program. */
module Machine {

  datatype Option<+T> = None | Some(value: T) {
    predicate IsFailure() { None? }
    function PropagateFailure<U>(): Option<U> requires None? { None }
    function Extract(): T requires Some? { value }
  }

  datatype Result<+T, +E> = Ok(value: T) | Err(error: E) {
    predicate IsFailure() { Err? }
    function PropagateFailure<U>(): Result<U, E> requires Err? { Err(error) }
    function Extract(): T requires Ok? { value }
  }

  const U64_MAX: nat := 0xFFFF_FFFF_FFFF_FFFF
  const I64_MAX: nat := 0x7FFF_FFFF_FFFF_FFFF

  /** `u64::checked_add`. */
  function AddU64(a: nat, b: nat): (sum: Option<nat>)
  {
    if a + b <= U64_MAX then Some(a + b) else None
  }

  /** `u64::checked_mul`. */
  function MulU64(a: nat, b: nat): (product: Option<nat>)
  {
    if a * b <= U64_MAX then Some(a * b) else None
  }

  /** `i64::checked_add` where the second operand is never negative. */
  function AddI64(a: int, b: nat): (sum: Option<int>)
  {
    if a + b <= I64_MAX then Some(a + b) else None
  }

  function Max(a: int, b: int): int { if a < b then b else a }

  function Min(a: int, b: int): int { if a < b then a else b }

  /** `std::time::Duration`: whole seconds and a fraction below one second. */
  datatype Duration = Duration(secs: nat, nanos: nat) {
    ghost predicate Valid() { secs <= U64_MAX && nanos < 1_000_000_000 }

    /** `Duration::as_millis`, which drops any sub-millisecond part. */
    function Millis(): nat { secs * 1_000 + nanos / 1_000_000 }

    predicate IsZero() { secs == 0 && nanos == 0 }
  }

  /** `i64::try_from(duration.as_millis())`. */
  function SignedMillis(duration: Duration): Option<nat>
  {
    if duration.Millis() <= I64_MAX then Some(duration.Millis()) else None
  }
}

/** Byte strings: big-endian integers, length prefixes and lexicographic order. */
module Bytes {
  import opened Machine

  type Byte = b: int | 0 <= b < 256
  type Text = seq<Byte>

  /** The bytes of an ASCII literal; every use is one, so nothing is reduced. */
  function Ascii(s: string): (bytes: Text)
    ensures |bytes| == |s|
  {
    seq(|s|, i requires 0 <= i < |s| => s[i] as int % 256)
  }

  function Pow256(width: nat): (p: nat)
    ensures p > 0
  {
    if width == 0 then 1 else 256 * Pow256(width - 1)
  }

  function BigEndian(value: nat, width: nat): (bytes: Text)
    ensures |bytes| == width
  {
    if width == 0 then [] else BigEndian(value / 256, width - 1) + [value % 256]
  }

  function FromBigEndian(bytes: Text): (value: nat)
  {
    if bytes == [] then 0
    else FromBigEndian(bytes[..|bytes| - 1]) * 256 + bytes[|bytes| - 1]
  }

  /** Reading back a written integer gives the integer, as long as it fits. */
  lemma {:induction false} BigEndianReadsBack(value: nat, width: nat)
    requires value < Pow256(width)
    ensures FromBigEndian(BigEndian(value, width)) == value
  {
    if width != 0 {
      BigEndianReadsBack(value / 256, width - 1);
      assert BigEndian(value, width)[..width - 1] == BigEndian(value / 256, width - 1);
    }
  }

  /** Writing back a read integer gives the same bytes, and it always fits. */
  lemma {:induction false} BigEndianWritesBack(bytes: Text)
    ensures FromBigEndian(bytes) < Pow256(|bytes|)
    ensures BigEndian(FromBigEndian(bytes), |bytes|) == bytes
  {
    if bytes != [] {
      BigEndianWritesBack(bytes[..|bytes| - 1]);
      assert bytes == bytes[..|bytes| - 1] + [bytes[|bytes| - 1]];
    }
  }

  lemma Pow256Widths()
    ensures Pow256(4) == 0x1_0000_0000
    ensures Pow256(8) == U64_MAX + 1
  {
    assert Pow256(2) == 65536;
    assert Pow256(4) == 65536 * 65536;
    assert Pow256(6) == 65536 * Pow256(4);
    assert Pow256(8) == 65536 * Pow256(6);
  }

  lemma BigEndianInjective(a: nat, b: nat, width: nat)
    requires a < Pow256(width) && b < Pow256(width)
    requires BigEndian(a, width) == BigEndian(b, width)
    ensures a == b
  {
    BigEndianReadsBack(a, width);
    BigEndianReadsBack(b, width);
  }

  /** Equal concatenations whose first parts are equally long split equally. */
  lemma SplitAt(a: Text, x: Text, b: Text, y: Text)
    requires |a| == |b| && a + x == b + y
    ensures a == b && x == y
  {
    assert a == (a + x)[..|a|];
    assert x == (a + x)[|a|..];
    assert b == (b + y)[..|b|];
    assert y == (b + y)[|b|..];
  }

  /** Concatenation regroups to the right. */
  lemma Regroup(a: Text, b: Text, c: Text, d: Text, e: Text, x: Text)
    ensures (a + (b + (c + (d + e)))) + x == a + (b + (c + (d + (e + x))))
  {
    assert (d + e) + x == d + (e + x);
    assert (c + (d + e)) + x == c + ((d + e) + x);
    assert (b + (c + (d + e))) + x == b + ((c + (d + e)) + x);
  }

  /** The lexicographic order of Rust's `[u8]` and `str`. */
  predicate LexLeq(a: Text, b: Text)
    decreases |a|
  {
    a == [] || (b != [] && (a[0] < b[0] || (a[0] == b[0] && LexLeq(a[1..], b[1..]))))
  }

  lemma LexReflexive(a: Text)
    ensures LexLeq(a, a)
    decreases |a|
  {
    if a != [] { LexReflexive(a[1..]); }
  }

  lemma {:induction false} LexTotal(a: Text, b: Text)
    ensures LexLeq(a, b) || LexLeq(b, a)
    decreases |a|
  {
    if a != [] && b != [] { LexTotal(a[1..], b[1..]); }
  }

  lemma {:induction false} LexTransitive(a: Text, b: Text, c: Text)
    requires LexLeq(a, b) && LexLeq(b, c)
    ensures LexLeq(a, c)
    decreases |a|
  {
    if a != [] && a[0] == b[0] == c[0] { LexTransitive(a[1..], b[1..], c[1..]); }
  }

  lemma {:induction false} LexAntisymmetric(a: Text, b: Text)
    requires LexLeq(a, b) && LexLeq(b, a)
    ensures a == b
    decreases |a|
  {
    if a != [] {
      LexAntisymmetric(a[1..], b[1..]);
      assert a == [a[0]] + a[1..] && b == [b[0]] + b[1..];
    }
  }
}

/** Sorting, as the standard library's sorts and ordered maps promise it. */
module Sorting {
  import opened Bytes

  ghost predicate TotalPreorder<T(!new)>(leq: (T, T) -> bool)
  {
    && (forall a, b :: leq(a, b) || leq(b, a))
    && (forall a, b, c :: leq(a, b) && leq(b, c) ==> leq(a, c))
  }

  ghost predicate Antisymmetric<T(!new)>(leq: (T, T) -> bool)
  {
    forall a, b :: leq(a, b) && leq(b, a) ==> a == b
  }

  ghost predicate SortedBy<T(!new)>(s: seq<T>, leq: (T, T) -> bool)
  {
    forall i, j :: 0 <= i < j < |s| ==> leq(s[i], s[j])
  }

  function Insert<T(!new)>(x: T, s: seq<T>, leq: (T, T) -> bool): (r: seq<T>)
    requires TotalPreorder(leq) && SortedBy(s, leq)
    ensures SortedBy(r, leq) && multiset(r) == multiset{x} + multiset(s)
  {
    if s == [] then [x]
    else if leq(x, s[0]) then
      [x] + s
    else
      var rest := Insert(x, s[1..], leq);
      InsertHead(x, s, rest, leq);
      [s[0]] + rest
  }

  lemma InsertHead<T(!new)>(x: T, s: seq<T>, rest: seq<T>, leq: (T, T) -> bool)
    requires TotalPreorder(leq) && s != [] && SortedBy(s, leq) && !leq(x, s[0])
    requires SortedBy(rest, leq) && multiset(rest) == multiset{x} + multiset(s[1..])
    ensures SortedBy([s[0]] + rest, leq)
    ensures multiset([s[0]] + rest) == multiset{x} + multiset(s)
  {
    assert s == [s[0]] + s[1..];
    forall j | 0 <= j < |rest| ensures leq(s[0], rest[j]) {
      assert rest[j] in multiset(rest);
      if rest[j] in s[1..] {
        var k :| 0 <= k < |s[1..]| && s[1..][k] == rest[j];
        assert s[k + 1] == rest[j];
      }
    }
  }

  /** A stable sort: the result is ordered and holds exactly the input's items. */
  function SortBy<T(!new)>(s: seq<T>, leq: (T, T) -> bool): (r: seq<T>)
    requires TotalPreorder(leq)
    ensures SortedBy(r, leq) && multiset(r) == multiset(s) && |r| == |s|
  {
    if s == [] then []
    else
      assert s == [s[0]] + s[1..];
      var r := Insert(s[0], SortBy(s[1..], leq), leq);
      SameSize(r, s);
      r
  }

  lemma SameSize<T>(a: seq<T>, b: seq<T>)
    requires multiset(a) == multiset(b)
    ensures |a| == |b|
  {
    assert |multiset(a)| == |a| && |multiset(b)| == |b|;
  }

  /** Under an antisymmetric order a multiset has one sorted listing only. */
  lemma {:induction false} SortedIsUnique<T(!new)>(a: seq<T>, b: seq<T>, leq: (T, T) -> bool)
    requires TotalPreorder(leq) && Antisymmetric(leq)
    requires SortedBy(a, leq) && SortedBy(b, leq) && multiset(a) == multiset(b)
    ensures a == b
  {
    SameSize(a, b);
    if a != [] {
      assert a[0] in multiset(b) && b[0] in multiset(a);
      assert leq(a[0], b[0]) && leq(b[0], a[0]);
      assert a == [a[0]] + a[1..] && b == [b[0]] + b[1..];
      assert multiset(a[1..]) == multiset(a) - multiset{a[0]};
      SortedIsUnique(a[1..], b[1..], leq);
    }
  }

  lemma LexIsTotalOrder()
    ensures TotalPreorder(LexLeq) && Antisymmetric(LexLeq)
  {
    forall a: Text, b: Text ensures LexLeq(a, b) || LexLeq(b, a) { LexTotal(a, b); }
    forall a: Text, b: Text, c: Text | LexLeq(a, b) && LexLeq(b, c) ensures LexLeq(a, c) {
      LexTransitive(a, b, c);
    }
    forall a: Text, b: Text | LexLeq(a, b) && LexLeq(b, a) ensures a == b {
      LexAntisymmetric(a, b);
    }
  }

  ghost predicate StrictlyAscending(keys: seq<Text>)
  {
    forall i, j :: 0 <= i < j < |keys| ==> LexLeq(keys[i], keys[j]) && keys[i] != keys[j]
  }

  /** The keys of an ordered map or set, in iteration order. */
  method InKeyOrder(keys: set<Text>) returns (ordered: seq<Text>)
    ensures StrictlyAscending(ordered)
    ensures forall k :: k in ordered <==> k in keys
    ensures |ordered| == |keys|
  {
    LexIsTotalOrder();
    ordered := [];
    var rest := keys;
    while rest != {}
      invariant SortedBy(ordered, LexLeq) && rest <= keys
      invariant multiset(ordered) == multiset(keys - rest)
      invariant |ordered| + |rest| == |keys|
    {
      var k :| k in rest;
      assert keys - (rest - {k}) == (keys - rest) + {k};
      ordered := Insert(k, ordered, LexLeq);
      SameSizeSet(ordered, keys - (rest - {k}));
      rest := rest - {k};
    }
    assert keys - rest == keys;
    forall k ensures k in ordered <==> k in keys {
      assert k in ordered <==> k in multiset(ordered);
    }
    DistinctItems(ordered, keys);
  }

  lemma SameSizeSet<T>(a: seq<T>, s: set<T>)
    requires multiset(a) == multiset(s)
    ensures |a| == |s|
  {
    assert |multiset(a)| == |a| && |multiset(s)| == |s|;
  }

  lemma DistinctItems<T>(a: seq<T>, s: set<T>)
    requires multiset(a) == multiset(s)
    ensures forall i, j :: 0 <= i < j < |a| ==> a[i] != a[j]
  {
    forall i, j | 0 <= i < j < |a| ensures a[i] != a[j] {
      assert a == a[..j] + a[j..];
      assert multiset(a) == multiset(a[..j]) + multiset(a[j..]);
      assert a[..j][i] in multiset(a[..j]) && a[j..][0] in multiset(a[j..]);
      assert multiset(a)[a[j]] == 1;
    }
  }
}

/** Totals over finite maps. */
module Totals {

  ghost function Total<K>(m: map<K, nat>): (sum: nat)
  {
    if m == map[] then 0
    else
      var k :| k in m;
      m[k] + Total(m - {k})
  }

  /** Any key can be split off, not only the one the definition picks. */
  lemma {:induction false} TotalSplit<K>(m: map<K, nat>, k: K)
    requires k in m
    ensures Total(m) == m[k] + Total(m - {k})
  {
    var pick :| pick in m && Total(m) == m[pick] + Total(m - {pick});
    if pick != k {
      TotalSplit(m - {pick}, k);
      TotalSplit(m - {k}, pick);
      assert m - {pick} - {k} == m - {k} - {pick};
    }
  }

  lemma TotalPut<K>(m: map<K, nat>, k: K, v: nat)
    ensures Total(m[k := v]) == Total(m) - (if k in m then m[k] else 0) + v
  {
    TotalSplit(m[k := v], k);
    assert m[k := v] - {k} == m - {k};
    if k in m {
      TotalSplit(m, k);
    } else {
      assert m - {k} == m;
    }
  }

  lemma OneMore(n: nat, scale: nat)
    ensures (n + 1) * scale == n * scale + scale
  {
  }

  lemma {:induction false} TotalBound<K>(m: map<K, nat>, bound: nat)
    requires forall k :: k in m ==> m[k] <= bound
    ensures Total(m) <= |m| * bound
  {
    if m != map[] {
      var k :| k in m;
      TotalSplit(m, k);
      var rest := m - {k};
      assert rest.Keys == m.Keys - {k};
      OneMore(|rest|, bound);
      TotalBound(rest, bound);
    }
  }

  /** A part of the entries never totals more than all of them. */
  lemma {:induction false} TotalOfPart<K>(part: map<K, nat>, whole: map<K, nat>)
    requires part.Keys <= whole.Keys && forall k :: k in part ==> part[k] == whole[k]
    ensures Total(part) <= Total(whole)
  {
    if part != map[] {
      var k :| k in part;
      TotalSplit(part, k);
      TotalSplit(whole, k);
      TotalOfPart(part - {k}, whole - {k});
    }
  }
}

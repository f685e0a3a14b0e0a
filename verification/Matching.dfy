/** Protected-branch wildcards (controller/gitlab/src/snapshot.rs). */
module Wildcard {
  import opened Machine

  /** What a pattern means: each star stands for some possibly empty run. */
  ghost predicate Matches(pattern: string, value: string)
    decreases |pattern|
  {
    if pattern == [] then value == []
    else if pattern[0] == '*' then
      exists k :: 0 <= k <= |value| && Matches(pattern[1..], value[k..])
    else
      value != [] && value[0] == pattern[0] && Matches(pattern[1..], value[1..])
  }

  /** The length of the star-free run a pattern starts with. */
  function Literal(pattern: string): (n: nat)
    ensures n <= |pattern|
    ensures forall i :: 0 <= i < n ==> pattern[i] != '*'
    ensures n < |pattern| ==> pattern[n] == '*'
  {
    if pattern == [] || pattern[0] == '*' then 0 else 1 + Literal(pattern[1..])
  }

  /** `pattern.split('*')`. */
  function Split(pattern: string): seq<string>
    decreases |pattern|
  {
    var n := Literal(pattern);
    if n == |pattern| then [pattern] else [pattern[..n]] + Split(pattern[n + 1..])
  }

  function NonEmpty(parts: seq<string>): (kept: seq<string>)
    ensures forall i :: 0 <= i < |kept| ==> kept[i] != []
  {
    if parts == [] then []
    else (if parts[0] == [] then [] else [parts[0]]) + NonEmpty(parts[1..])
  }

  function Parts(pattern: string): seq<string> { NonEmpty(Split(pattern)) }

  predicate Starts(pattern: string) { pattern != [] && pattern[0] == '*' }

  predicate Ends(pattern: string) { pattern != [] && pattern[|pattern| - 1] == '*' }

  /** `str::find`: the first place the needle occurs. */
  function Find(hay: string, needle: string): (at: Option<nat>)
    ensures at.Some? ==> at.value + |needle| <= |hay| && needle <= hay[at.value..]
  {
    if needle <= hay then Some(0)
    else if hay == [] then None
    else
      var rest := Find(hay[1..], needle);
      if rest.None? then None
      else
        assert hay[1..][rest.value..] == hay[rest.value + 1..];
        Some(rest.value + 1)
  }

  lemma {:induction false} FindIsFirst(hay: string, needle: string, k: nat)
    requires k <= |hay| && needle <= hay[k..]
    ensures Find(hay, needle).Some? && Find(hay, needle).value <= k
  {
    if k == 0 {
      assert hay[0..] == hay;
    } else if !(needle <= hay) {
      assert hay[1..][k - 1..] == hay[k..];
      FindIsFirst(hay[1..], needle, k - 1);
    }
  }

  /** The greedy matcher accepts exactly what the pattern means. */
  method WildcardMatches(pattern: string, value: string) returns (matched: bool)
    ensures matched <==> Matches(pattern, value)
  {
    hide Matches, Split, NonEmpty, Literal, Fits, Find;
    var starts, ends, parts := Starts(pattern), Ends(pattern), Parts(pattern);
    MatchesIffFits(pattern, value);
    if pattern == [] { EmptyPatternHasNoParts(); }
    else if parts == [] { OnlyStars(pattern); }
    var remaining := value;
    for i := 0 to |parts|
      invariant Fits(parts, starts, ends, value)
           <==> Fits(parts[i..], if i == 0 then starts else i < |parts| || ends, ends, remaining)
      invariant 0 < i == |parts| && !ends ==> !starts
      invariant i == 0 ==> remaining == value
    {
      var part := parts[i];
      assert parts[i..][0] == part && parts[i..][1..] == parts[i + 1..];
      if i == 0 && !starts {
        AnchoredFits(parts[i..], ends, remaining);
        if !(part <= remaining) { return false; }
        remaining := remaining[|part|..];
      } else if i + 1 == |parts| && !ends {
        LastFits(part, remaining);
        assert parts[i..] == [part];
        return |part| <= |remaining| && remaining[|remaining| - |part|..] == part;
      } else {
        var position := Find(remaining, part);
        GreedyFits(parts[i..], ends, remaining);
        if position.None? { return false; }
        remaining := remaining[position.value + |part|..];
      }
    }
    assert parts[|parts|..] == [] && parts[0..] == parts;
    FitsNone(if parts == [] then starts else ends, ends, remaining);
    matched := if pattern == [] then value == [] else starts || ends || remaining == [];
  }

  /**
   * The parts laid out in order: `floating` lets the first start anywhere, and
   * after the last anything may follow exactly when the pattern ends in a star.
   */
  ghost predicate Fits(parts: seq<string>, floating: bool, ends: bool, v: string)
    decreases |parts|, 1
  {
    if parts == [] then floating || v == []
    else exists k :: FitsAt(parts, floating, ends, v, k)
  }

  /** A layout whose first part is at `k`. */
  ghost predicate FitsAt(parts: seq<string>, floating: bool, ends: bool, v: string, k: int)
    requires parts != []
    decreases |parts|, 0
  {
    && 0 <= k <= |v| && (k == 0 || floating) && parts[0] <= v[k..]
    && Fits(parts[1..], |parts| > 1 || ends, ends, v[k + |parts[0]|..])
  }

  lemma FitsIntro(parts: seq<string>, floating: bool, ends: bool, v: string, k: int)
    requires parts != [] && FitsAt(parts, floating, ends, v, k)
    ensures Fits(parts, floating, ends, v)
  {
  }

  lemma FitsElim(parts: seq<string>, floating: bool, ends: bool, v: string) returns (k: int)
    requires parts != [] && Fits(parts, floating, ends, v)
    ensures FitsAt(parts, floating, ends, v, k)
  {
    hide FitsAt;
    k :| FitsAt(parts, floating, ends, v, k);
  }

  lemma FitsNone(floating: bool, ends: bool, v: string)
    ensures Fits([], floating, ends, v) <==> floating || v == []
  {
  }

  lemma AnchoredFits(parts: seq<string>, ends: bool, v: string)
    requires parts != []
    ensures Fits(parts, false, ends, v)
       <==> parts[0] <= v && Fits(parts[1..], |parts| > 1 || ends, ends, v[|parts[0]|..])
  {
    hide Fits;
    assert v[0..] == v;
    if Fits(parts, false, ends, v) {
      var k := FitsElim(parts, false, ends, v);
    } else if parts[0] <= v && Fits(parts[1..], |parts| > 1 || ends, ends, v[|parts[0]|..]) {
      FitsIntro(parts, false, ends, v, 0);
    }
  }

  lemma WholePrefix(part: string, v: string)
    requires |v| == |part|
    ensures part <= v <==> part == v
  {
  }

  lemma LastPartEnds(part: string, v: string)
    requires Fits([part], true, false, v)
    ensures |part| <= |v| && v[|v| - |part|..] == part
  {
    hide Fits;
    var k := FitsElim([part], true, false, v);
    assert [part][1..] == [];
    FitsNone(false, false, v[k + |part|..]);
    WholePrefix(part, v[k..]);
  }

  lemma EndingPartFits(part: string, v: string)
    requires |part| <= |v| && v[|v| - |part|..] == part
    ensures Fits([part], true, false, v)
  {
    hide Fits;
    assert [part][1..] == [];
    var k := |v| - |part|;
    FitsNone(false, false, v[k + |part|..]);
    WholePrefix(part, v[k..]);
    FitsIntro([part], true, false, v, k);
  }

  lemma LastFits(part: string, v: string)
    ensures Fits([part], true, false, v) <==> |part| <= |v| && v[|v| - |part|..] == part
  {
    hide Fits;
    if Fits([part], true, false, v) {
      LastPartEnds(part, v);
    } else if |part| <= |v| && v[|v| - |part|..] == part {
      EndingPartFits(part, v);
    }
  }

  /** Text in front of a floating layout never hurts. */
  lemma FitsWithMoreInFront(parts: seq<string>, floating: bool, ends: bool, v: string, d: nat)
    requires d <= |v| && Fits(parts, floating, ends, v[d..])
    ensures Fits(parts, true, ends, v)
  {
    hide Fits;
    if parts == [] {
      FitsNone(true, ends, v);
    } else {
      var k := FitsElim(parts, floating, ends, v[d..]);
      assert v[d..][k..] == v[d + k..];
      assert v[d..][k + |parts[0]|..] == v[d + k + |parts[0]|..];
      FitsIntro(parts, true, ends, v, d + k);
    }
  }

  lemma SliceAgain(v: string, a: nat, b: nat)
    requires a <= b <= |v|
    ensures v[a..][b - a..] == v[b..]
  {
  }

  lemma FirstOccurrenceFits(parts: seq<string>, ends: bool, v: string)
    requires parts != [] && (|parts| > 1 || ends) && Fits(parts, true, ends, v)
    ensures var at := Find(v, parts[0]);
            at.Some? && Fits(parts[1..], true, ends, v[at.value + |parts[0]|..])
  {
    hide Fits, Find;
    var k := FitsElim(parts, true, ends, v);
    FindIsFirst(v, parts[0], k);
    var from, to := Find(v, parts[0]).value + |parts[0]|, k + |parts[0]|;
    SliceAgain(v, from, to);
    FitsWithMoreInFront(parts[1..], true, ends, v[from..], to - from);
  }

  /** Taking the first occurrence of a part loses nothing. */
  lemma GreedyFits(parts: seq<string>, ends: bool, v: string)
    requires parts != [] && (|parts| > 1 || ends)
    ensures Fits(parts, true, ends, v)
       <==> var at := Find(v, parts[0]);
            at.Some? && Fits(parts[1..], true, ends, v[at.value + |parts[0]|..])
  {
    hide Fits, Find;
    var at := Find(v, parts[0]);
    if Fits(parts, true, ends, v) {
      FirstOccurrenceFits(parts, ends, v);
    } else if at.Some? && Fits(parts[1..], true, ends, v[at.value + |parts[0]|..]) {
      FitsIntro(parts, true, ends, v, at.value);
    }
  }

  lemma FloatingFits(parts: seq<string>, anywhere: bool, ends: bool, v: string)
    ensures Fits(parts, true, ends, v)
       <==> exists k :: 0 <= k <= |v| && Fits(parts, anywhere, ends, v[k..])
  {
    hide Fits;
    if Fits(parts, true, ends, v) {
      if parts == [] {
        FitsNone(anywhere, ends, v[|v|..]);
      } else {
        var k := FitsElim(parts, true, ends, v);
        assert v[k..][0..] == v[k..] && v[k..][|parts[0]|..] == v[k + |parts[0]|..];
        FitsIntro(parts, anywhere, ends, v[k..], 0);
      }
    } else if k :| 0 <= k <= |v| && Fits(parts, anywhere, ends, v[k..]) {
      FitsWithMoreInFront(parts, anywhere, ends, v, k);
    }
  }

  lemma {:induction false} LiteralMatches(pattern: string, n: nat, value: string)
    requires n <= Literal(pattern)
    ensures Matches(pattern, value)
       <==> pattern[..n] <= value && Matches(pattern[n..], value[n..])
    decreases n
  {
    if n == 0 {
      assert pattern[0..] == pattern && value[0..] == value;
    } else if value != [] && value[0] == pattern[0] {
      LiteralMatches(pattern[1..], n - 1, value[1..]);
      assert pattern[1..][n - 1..] == pattern[n..];
      assert pattern[..n] == [pattern[0]] + pattern[1..][..n - 1] && value == [value[0]] + value[1..];
      if |value| >= n { assert value[1..][n - 1..] == value[n..]; }
    }
  }

  lemma PartsOfStar(pattern: string)
    requires Starts(pattern)
    ensures Parts(pattern) == Parts(pattern[1..])
  {
    assert Literal(pattern) == 0;
    assert Split(pattern) == [[]] + Split(pattern[1..]);
  }

  lemma PartsOfLiteral(pattern: string)
    requires pattern != [] && !Starts(pattern)
    ensures var n := Literal(pattern);
            n > 0 && Parts(pattern) == [pattern[..n]] + Parts(pattern[n..])
  {
    var n := Literal(pattern);
    if n == |pattern| {
      assert pattern[..n] == pattern && pattern[n..] == [];
      assert Split(pattern) == [pattern] && NonEmpty([pattern]) == [pattern] + NonEmpty([]);
      EmptyPatternHasNoParts();
    } else {
      PartsOfStar(pattern[n..]);
      assert pattern[n..][1..] == pattern[n + 1..];
      assert Split(pattern)[1..] == Split(pattern[n + 1..]);
    }
  }

  lemma {:induction false} OnlyStars(pattern: string)
    requires pattern != [] && Parts(pattern) == []
    ensures Starts(pattern) && Ends(pattern)
    decreases |pattern|
  {
    if !Starts(pattern) {
      PartsOfLiteral(pattern);
    } else if |pattern| > 1 {
      PartsOfStar(pattern);
      OnlyStars(pattern[1..]);
    }
  }

  /** A pattern means that its non-empty parts are laid out in order. */
  lemma {:induction false} MatchesIffFits(pattern: string, value: string)
    ensures Matches(pattern, value) <==> Fits(Parts(pattern), Starts(pattern), Ends(pattern), value)
    decreases |pattern|
  {
    hide Split, NonEmpty, Literal, Fits;
    if pattern == [] {
      EmptyPatternHasNoParts();
      FitsNone(false, false, value);
    } else if Starts(pattern) {
      StarMatches(pattern, value);
    } else {
      var n := Literal(pattern);
      LiteralMatches(pattern, n, value);
      PartsOfLiteral(pattern);
      var rest := pattern[n..];
      if pattern[..n] <= value { MatchesIffFits(rest, value[n..]); }
      if rest != [] && Parts(rest) == [] { OnlyStars(rest); }
      if rest == [] { EmptyPatternHasNoParts(); LiteralDoesNotEnd(pattern); }
      else { LiteralThenStar(pattern); }
      AnchoredFits(Parts(pattern), Ends(pattern), value);
      assert Parts(pattern)[1..] == Parts(rest);
    }
  }

  lemma EmptyPatternHasNoParts()
    ensures Parts([]) == []
  {
    assert Split([]) == [[]];
  }

  lemma LiteralDoesNotEnd(pattern: string)
    requires pattern != [] && pattern[Literal(pattern)..] == []
    ensures !Ends(pattern)
  {
  }

  lemma LiteralThenStar(pattern: string)
    requires pattern[Literal(pattern)..] != []
    ensures var rest := pattern[Literal(pattern)..];
            Starts(rest) && Ends(rest) == Ends(pattern)
  {
  }

  lemma {:induction false} StarMatches(pattern: string, value: string)
    requires Starts(pattern)
    ensures Matches(pattern, value) <==> Fits(Parts(pattern), true, Ends(pattern), value)
    decreases |pattern|, 0
  {
    hide Split, NonEmpty, Literal, Fits;
    var rest := pattern[1..];
    PartsOfStar(pattern);
    forall k | 0 <= k <= |value|
      ensures Matches(rest, value[k..]) <==> Fits(Parts(rest), Starts(rest), Ends(rest), value[k..])
    {
      MatchesIffFits(rest, value[k..]);
    }
    if rest == [] {
      EmptyPatternHasNoParts();
      FitsNone(true, true, value);
      assert value[|value|..] == [] && Matches(rest, value[|value|..]);
    } else {
      FloatingFits(Parts(rest), Starts(rest), Ends(rest), value);
      assert Ends(rest) == Ends(pattern);
    }
  }
}

/** Refs spelled across URL segments (controller/src/spelling.rs). */
module Spelling {
  import opened Machine

  function Join(segments: seq<string>): string
  {
    if segments == [] then []
    else if |segments| == 1 then segments[0]
    else segments[0] + "/" + Join(segments[1..])
  }

  /** A ref of several segments starts with the first, a slash, then the rest. */
  lemma JoinUnfolds(segments: seq<string>, i: nat, n: nat)
    requires i < n <= |segments|
    ensures n == i + 1 ==> Join(segments[i..n]) == segments[i]
    ensures n > i + 1 ==> Join(segments[i..n]) == segments[i] + "/" + Join(segments[i + 1..n])
  {
    assert segments[i..n][1..] == segments[i + 1..n];
  }

  ghost predicate Spells(segments: seq<string>, i: nat, n: nat, text: string)
    requires i <= n <= |segments|
  {
    Join(segments[i..n]) == text
  }

  /** Peeling one segment and one slash leaves the same question about the rest. */
  lemma PeelSegment(segments: seq<string>, i: nat, n: nat, text: string)
    requires i < n <= |segments|
    ensures n == i + 1 ==> (Spells(segments, i, n, text) <==> text == segments[i])
    ensures n > i + 1 ==>
      (Spells(segments, i, n, text) <==>
         && segments[i] + "/" <= text
         && Spells(segments, i + 1, n, text[|segments[i]| + 1..]))
  {
    JoinUnfolds(segments, i, n);
    if n > i + 1 {
      var head, tail := segments[i] + "/", Join(segments[i + 1..n]);
      if head <= text { assert text == head + text[|head|..]; }
      if head + tail == text { assert text[|head|..] == tail; }
    }
  }

  /** `RefSpan` returns `n` exactly when the first `n` segments spell the ref. */
  method RefSpan(segments: seq<string>, candidate: string) returns (span: Option<nat>)
    ensures forall n :: 1 <= n <= |segments| ==>
      (span == Some(n) <==> Join(segments[..n]) == candidate)
    ensures span.Some? ==> 1 <= span.value <= |segments|
  {
    hide Join;
    var remainder := candidate;
    for i := 0 to |segments|
      invariant forall n :: 1 <= n <= i ==> !Spells(segments, 0, n, candidate)
      invariant forall n :: i < n <= |segments| ==>
        (Spells(segments, 0, n, candidate) <==> Spells(segments, i, n, remainder))
    {
      var segment := segments[i];
      forall n | i < n <= |segments|
        ensures n == i + 1 ==> (Spells(segments, i, n, remainder) <==> remainder == segment)
        ensures n > i + 1 ==>
          (Spells(segments, i, n, remainder) <==>
             segment + "/" <= remainder && Spells(segments, i + 1, n, remainder[|segment| + 1..]))
      {
        PeelSegment(segments, i, n, remainder);
      }
      if !(segment <= remainder) { AsPrefixes(segments, candidate); return None; }
      var rest := remainder[|segment|..];
      if rest == [] { AsPrefixes(segments, candidate); return Some(i + 1); }
      if rest[0] != '/' {
        assert (segment + "/")[|segment|] != remainder[|segment|];
        AsPrefixes(segments, candidate);
        return None;
      }
      assert segment + "/" <= remainder;
      assert rest[1..] == remainder[|segment| + 1..];
      remainder := rest[1..];
    }
    AsPrefixes(segments, candidate);
    span := None;
  }

  lemma AsPrefixes(segments: seq<string>, text: string)
    ensures forall n :: 1 <= n <= |segments| ==>
      (Spells(segments, 0, n, text) <==> Join(segments[..n]) == text)
  {
    hide Join;
    forall n | 1 <= n <= |segments|
      ensures Spells(segments, 0, n, text) <==> Join(segments[..n]) == text
    {
      assert segments[0..n] == segments[..n];
    }
  }
}

/** What one media range of an `Accept` header means against a registered type
    (`canonical_accept_match`, src/routes/graph.rs): when it matches, how
    specifically, with which quality, and which spellings are alike. */
module AcceptRanges {
  import opened Prelude
  import opened Text
  import opened Negotiation

  // ---- Parameters ----

  /** A part `name = value`, each side without the space around it. */
  function Param(part: string): Option<(string, string)> {
    var pair := SplitOnce(part, '=');
    if pair.None? then None else Some((Trimmed(pair.value.0), Trimmed(pair.value.1)))
  }

  predicate IsQuality(part: string) {
    Param(part).Some? && Lower(Param(part).value.0) == "q"
  }

  /** Some parameter of the registered type has this name and value, case and
      quotes around the value aside. */
  ghost predicate IsRegistered(part: string, registered: string) {
    HasSame(part, Split(registered, ';')[1..])
  }

  ghost predicate HasSame(part: string, parts: seq<string>) {
    exists j :: 0 <= j < |parts| && SameParam(part, parts[j])
  }

  predicate SameParam(part: string, other: string) {
    Param(part).Some? && Param(other).Some? &&
    var (name, value), (otherName, otherValue) := Param(part).value, Param(other).value;
    Lower(name) == Lower(otherName) && Lower(Unquoted(value)) == Lower(Unquoted(otherValue))
  }

  /** Trimming a part first, as the code does, finds the same two sides. */
  lemma ParamOfTrimmed(part: string)
    ensures SplitOnce(Trimmed(part), '=').None? <==> Param(part).None?
    ensures Param(part).Some? ==>
              var pair := SplitOnce(Trimmed(part), '=').value;
              Param(part) == Some((Trimmed(pair.0), Trimmed(pair.1)))
  {
    SplitOnceMeans(part, '=');
    var pair := SplitOnce(part, '=');
    if pair.None? {
      TrimStartKeeps(part, IsWhitespace, '=');
      SplitOnceMeans(Trimmed(part), '=');
    } else {
      var (name, value) := pair.value;
      var x, y := TrimStart(name, IsWhitespace), TrimEnd(value, IsWhitespace);
      assert part == name + (['='] + value);
      TrimStartAppend(name, ['='] + value, IsWhitespace);
      assert TrimStart(part, IsWhitespace) == x + ['='] + value;
      TrimEndAppend(x + ['='], value, IsWhitespace);
      assert Trimmed(part) == x + ['='] + y;
      TrimStartKeeps(name, IsWhitespace, '=');
      SplitOnceAt(x, y, '=');
      TrimOfTrimmed(name, IsWhitespace);
      TrimOfTrimmed(value, IsWhitespace);
    }
  }

  lemma {:induction false} RegisteredInIff(part: string, parts: seq<string>)
    requires Param(part).Some?
    ensures
      var pair := SplitOnce(Trimmed(part), '=');
      && pair.Some?
      && (IsKnown(pair.value.0, pair.value.1, Parameters(parts)) <==> HasSame(part, parts))
  {
    hide Lower, Unquoted, Trimmed, SplitOnce;
    ParamOfTrimmed(part);
    if parts != [] {
      var first, rest, params := parts[0], parts[1..], Parameters(parts);
      var pair := SplitOnce(Trimmed(part), '=').value;
      RegisteredInIff(part, rest);
      ParamOfTrimmed(first);
      assert parts == [first] + rest;
      var head := if SplitOnce(Trimmed(first), '=').Some? then [SplitOnce(Trimmed(first), '=').value] else [];
      assert params == head + Parameters(rest);
      KnownAppend(pair.0, pair.1, head, Parameters(rest));
      assert IsKnown(pair.0, pair.1, head) <==> SameParam(part, first) by {
        if SameParam(part, first) {
          assert ParameterMatches(pair.0, pair.1, head[0]);
        }
      }
      assert HasSame(part, parts) <==> SameParam(part, first) || HasSame(part, rest) by {
        if j :| 0 <= j < |rest| && SameParam(part, rest[j]) {
          assert parts[j + 1] == rest[j];
        }
      }
    }
  }

  lemma KnownAppend(name: string, value: string, a: seq<(string, string)>, b: seq<(string, string)>)
    ensures IsKnown(name, value, a + b) <==> IsKnown(name, value, a) || IsKnown(name, value, b)
  {
    hide ParameterMatches;
    if i :| 0 <= i < |a| && ParameterMatches(name, value, a[i]) {
      assert (a + b)[i] == a[i];
    }
    if i :| 0 <= i < |b| && ParameterMatches(name, value, b[i]) {
      assert (a + b)[|a| + i] == b[i];
    }
  }

  // ---- The walk over the parts ----

  /** k is the first part named q, or the end. */
  predicate QualityAt(parts: seq<string>, k: nat) {
    && 1 <= k <= |parts|
    && (forall j :: 1 <= j < k ==> !IsQuality(parts[j]))
    && (k < |parts| ==> IsQuality(parts[k]))
  }

  /** Every parameter from i up to k is registered. */
  ghost predicate AllRegistered(parts: seq<string>, i: nat, k: nat, registered: string)
    requires k <= |parts|
  {
    forall j :: i <= j < k && Param(parts[j]).Some? ==> IsRegistered(parts[j], registered)
  }

  /** How many of the parts from i up to k are parameters. */
  function ParamCount(parts: seq<string>, i: nat, k: nat): nat
    requires i <= k <= |parts|
    decreases k - i
  {
    if i == k then 0 else (if Param(parts[i]).Some? then 1 else 0) + ParamCount(parts, i + 1, k)
  }

  /** The value of the part at k: a qvalue, 0 if it is none; 1000 at the end. */
  ghost predicate QualityIs(parts: seq<string>, k: nat, quality: nat)
    requires k < |parts| ==> Param(parts[k]).Some?
  {
    if k >= |parts| then quality == 1000
    else
      var value := Param(parts[k]).value.1;
      IsQvalue(value, quality) || (quality == 0 && forall q: nat :: !IsQvalue(value, q))
  }

  function Capped(n: nat): nat {
    if n < 0xFFFF then n else 0xFFFF
  }

  lemma {:induction false} WalkMeans(parts: seq<string>, i: nat, k: nat, registered: string, matched: nat)
    requires QualityAt(parts, k) && 1 <= i <= k && matched <= 0xFFFF
    ensures
      var walk := MatchParameters(parts[i..], Parameters(Split(registered, ';')[1..]), matched);
      && (walk.Some? <==> AllRegistered(parts, i, k, registered))
      && (walk.Some? ==> walk.value.0 == Capped(matched + ParamCount(parts, i, k)) && QualityIs(parts, k, walk.value.1))
    decreases k - i
  {
    hide ParseQuality, IsQvalue, IsRegistered, Split, SplitOnce, Lower, Trimmed, IsKnown, Parameters;
    var params := Parameters(Split(registered, ';')[1..]);
    if i == |parts| {
      assert parts[i..] == [];
    } else {
      assert parts[i..][0] == parts[i] && parts[i..][1..] == parts[i + 1..];
      ParamOfTrimmed(parts[i]);
      if i == k {
        QualityMeans(Param(parts[k]).value.1);
      } else {
        WalkMeans(parts, i + 1, k, registered, matched);
        if Param(parts[i]).Some? {
          RegisteredMeans(parts[i], registered);
          WalkMeans(parts, i + 1, k, registered, Capped(matched + 1));
        }
      }
    }
  }

  lemma RegisteredMeans(part: string, registered: string)
    requires Param(part).Some?
    ensures
      var params := Parameters(Split(registered, ';')[1..]);
      var pair := SplitOnce(Trimmed(part), '=');
      && pair.Some?
      && (IsKnown(pair.value.0, pair.value.1, params) <==> IsRegistered(part, registered))
  {
    hide Parameters, IsKnown, HasSame, Split, SplitOnce;
    RegisteredInIff(part, Split(registered, ';')[1..]);
  }

  lemma QualityMeans(value: string)
    ensures
      var parsed := ParseQuality(value);
      if parsed.Some? then IsQvalue(value, parsed.value) else forall q: nat :: !IsQvalue(value, q)
  {
    forall q: nat
      ensures ParseQuality(value) == Some(q) <==> IsQvalue(value, q)
    {
      QualityIsQvalue(value, q);
    }
  }

  // ---- The meaning of a range ----

  /** How the range's type stands to the registered one: 0 for any type at all, 1
      for any subtype of the same type, 2 for the very same. */
  predicate TypeRank(entry: string, registered: string, rank: nat) {
    var requested := SplitOnce(Lower(Trimmed(Split(entry, ';')[0])), '/');
    var known := SplitOnce(Trimmed(Split(registered, ';')[0]), '/');
    && requested.Some? && known.Some?
    && var (t, subtype) := requested.value;
       || (rank == 0 && t == "*" && subtype == "*")
       || (rank == 1 && t != "*" && subtype == "*" && t == known.value.0)
       || (rank == 2 && subtype != "*" && requested.value == known.value)
  }

  lemma TypeRankIff(entry: string, registered: string, rank: nat)
    ensures
      var requested := SplitOnce(Lower(Trimmed(Split(entry, ';')[0])), '/');
      var known := SplitOnce(Trimmed(Split(registered, ';')[0]), '/');
      TypeRank(entry, registered, rank)
      <==> requested.Some? && known.Some? && MediaSpecificity(requested.value, known.value) == Some(rank)
  {
    hide Lower, Trimmed, Split, SplitOnce;
  }

  /** The matches of a range, with k the first part named q, or the end: it
      matches when its type does and every parameter before k is registered;
      the code ranks the type, then the number of those parameters; the quality
      is the one at k. */
  ghost predicate MatchMeans(entry: string, registered: string, k: nat, rank: nat, m: Match)
    requires QualityAt(Split(entry, ';'), k)
  {
    var parts := Split(entry, ';');
    && TypeRank(entry, registered, rank)
    && AllRegistered(parts, 1, k, registered)
    && m.0 == SpecificityCode(rank, ParamCount(parts, 1, k))
    && QualityIs(parts, k, m.1)
  }

  lemma RangeMeaning(entry: string, registered: string, k: nat)
    requires QualityAt(Split(entry, ';'), k)
    ensures CanonicalMatch(entry, registered).Some?
            <==> (exists rank: nat :: TypeRank(entry, registered, rank)) && AllRegistered(Split(entry, ';'), 1, k, registered)
    ensures CanonicalMatch(entry, registered).Some? ==>
              exists rank: nat :: MatchMeans(entry, registered, k, rank, CanonicalMatch(entry, registered).value)
  {
    hide Split, SplitOnce, Lower, Trimmed, MatchParameters, Parameters, AllRegistered, QualityIs, ParamCount, TypeRank, MediaSpecificity;
    var parts := Split(entry, ';');
    WalkMeans(parts, 1, k, registered, 0);
    forall rank: nat
      ensures
        var requested := SplitOnce(Lower(Trimmed(parts[0])), '/');
        var known := SplitOnce(Trimmed(Split(registered, ';')[0]), '/');
        TypeRank(entry, registered, rank)
        <==> requested.Some? && known.Some? && MediaSpecificity(requested.value, known.value) == Some(rank)
    {
      TypeRankIff(entry, registered, rank);
    }
    if CanonicalMatch(entry, registered).Some? {
      var known := SplitOnce(Trimmed(Split(registered, ';')[0]), '/');
      var rank := MediaSpecificity(SplitOnce(Lower(Trimmed(parts[0])), '/').value, known.value).value;
      assert MatchMeans(entry, registered, k, rank, CanonicalMatch(entry, registered).value);
    }
  }

  /** There is one such k. */
  lemma {:induction false} QualityExists(parts: seq<string>, i: nat) returns (k: nat)
    requires 1 <= i <= |parts| && forall j :: 1 <= j < i ==> !IsQuality(parts[j])
    ensures QualityAt(parts, k)
    decreases |parts| - i
  {
    if i == |parts| || IsQuality(parts[i]) {
      k := i;
    } else {
      k := QualityExists(parts, i + 1);
    }
  }

  /** No match has two meanings: rank, code and quality are determined. */
  lemma MeaningIsUnique(entry: string, registered: string, k: nat, rank: nat, m: Match, l: nat, otherRank: nat, other: Match)
    requires QualityAt(Split(entry, ';'), k) && QualityAt(Split(entry, ';'), l)
    requires MatchMeans(entry, registered, k, rank, m) && MatchMeans(entry, registered, l, otherRank, other)
    ensures k == l && rank == otherRank && m == other
  {
    hide Split, SplitOnce, Lower, Trimmed, AllRegistered, ParamCount, IsQvalue;
    var parts := Split(entry, ';');
    assert k == l;
    if k < |parts| {
      var value := Param(parts[k]).value.1;
      QualityIsQvalue(value, m.1);
      QualityIsQvalue(value, other.1);
    }
  }

  ghost predicate MeansAt(entry: string, registered: string, k: nat, rank: nat, count: nat, quality: nat) {
    var parts := Split(entry, ';');
    && QualityAt(parts, k) && TypeRank(entry, registered, rank) && AllRegistered(parts, 1, k, registered)
    && count == ParamCount(parts, 1, k) && QualityIs(parts, k, quality)
  }

  /** The range matches with its type so close, so many parameters, and this
      quality. */
  ghost predicate RangeMeans(entry: string, registered: string, rank: nat, count: nat, quality: nat) {
    exists k: nat :: MeansAt(entry, registered, k, rank, count, quality)
  }

  lemma MatchIsMeaning(entry: string, registered: string)
    ensures CanonicalMatch(entry, registered).Some? ==>
              exists rank: nat, count: nat :: RangeMeans(entry, registered, rank, count, CanonicalMatch(entry, registered).value.1)
                && CanonicalMatch(entry, registered).value.0 == SpecificityCode(rank, count)
    ensures forall rank: nat, count: nat, quality: nat :: RangeMeans(entry, registered, rank, count, quality) ==>
              CanonicalMatch(entry, registered) == Some((SpecificityCode(rank, count), quality))
  {
    hide Split, TypeRank, AllRegistered, ParamCount, QualityIs, CanonicalMatch, SpecificityCode;
    var parts := Split(entry, ';');
    var k := QualityExists(parts, 1);
    RangeMeaning(entry, registered, k);
    if CanonicalMatch(entry, registered).Some? {
      var m := CanonicalMatch(entry, registered).value;
      var rank: nat :| MatchMeans(entry, registered, k, rank, m);
      assert MeansAt(entry, registered, k, rank, ParamCount(parts, 1, k), m.1);
    }
    forall rank: nat, count: nat, quality: nat | RangeMeans(entry, registered, rank, count, quality)
      ensures CanonicalMatch(entry, registered) == Some((SpecificityCode(rank, count), quality))
    {
      MeaningIsMatch(entry, registered, rank, count, quality);
    }
  }

  lemma MeaningIsMatch(entry: string, registered: string, rank: nat, count: nat, quality: nat)
    requires RangeMeans(entry, registered, rank, count, quality)
    ensures CanonicalMatch(entry, registered) == Some((SpecificityCode(rank, count), quality))
  {
    hide Split, TypeRank, AllRegistered, ParamCount, QualityIs, CanonicalMatch, SpecificityCode;
    var l: nat :| MeansAt(entry, registered, l, rank, count, quality);
    RangeMeaning(entry, registered, l);
    var m := CanonicalMatch(entry, registered).value;
    var other: nat :| MatchMeans(entry, registered, l, other, m);
    MeaningIsUnique(entry, registered, l, rank, (SpecificityCode(rank, count), quality), l, other, m);
  }

  /** Closer in type; or as close, with more parameters, counted up to 255. */
  predicate MoreSpecific(rank: nat, count: nat, otherRank: nat, otherCount: nat) {
    rank > otherRank || (rank == otherRank && otherCount < count && otherCount < 255)
  }

  /** `r` outranks or equals every range that matches. */
  ghost predicate Leads(entries: seq<string>, registered: string, rank: nat, count: nat, quality: nat) {
    forall e, otherRank: nat, otherCount: nat, otherQuality: nat ::
      e in entries && RangeMeans(e, registered, otherRank, otherCount, otherQuality) ==>
        && !MoreSpecific(otherRank, otherCount, rank, count)
        && (MoreSpecific(rank, count, otherRank, otherCount) || otherQuality <= quality)
  }

  /** A format's quality is that of its most specific matching range, the best of
      them if several are; it has none exactly when no range matches. */
  lemma MostSpecificRangeDecides(entries: seq<string>, registered: string)
    ensures Best(entries, registered).None? <==>
            forall e, rank: nat, count: nat, quality: nat :: e in entries ==> !RangeMeans(e, registered, rank, count, quality)
    ensures Best(entries, registered).Some? ==>
              var quality := Best(entries, registered).value.1;
              exists e, rank: nat, count: nat :: e in entries && RangeMeans(e, registered, rank, count, quality)
                && Leads(entries, registered, rank, count, quality)
  {
    hide RangeMeans, CanonicalMatch, Best, SpecificityCode;
    BestIsTop(entries, registered);
    forall e
      ensures CanonicalMatch(e, registered).Some? ==>
                exists rank: nat, count: nat :: RangeMeans(e, registered, rank, count, CanonicalMatch(e, registered).value.1)
                  && CanonicalMatch(e, registered).value.0 == SpecificityCode(rank, count)
      ensures forall rank: nat, count: nat, quality: nat :: RangeMeans(e, registered, rank, count, quality) ==>
                CanonicalMatch(e, registered) == Some((SpecificityCode(rank, count), quality))
    {
      MatchIsMeaning(e, registered);
    }
    var best := Best(entries, registered);
    if best.Some? {
      var e :| e in entries && CanonicalMatch(e, registered) == best;
      var rank: nat, count: nat :| RangeMeans(e, registered, rank, count, best.value.1)
                                   && best.value.0 == SpecificityCode(rank, count);
      forall d, otherRank: nat, otherCount: nat, otherQuality: nat |
        d in entries && RangeMeans(d, registered, otherRank, otherCount, otherQuality)
        ensures && !MoreSpecific(otherRank, otherCount, rank, count)
                && (MoreSpecific(rank, count, otherRank, otherCount) || otherQuality <= best.value.1)
      {
        assert CanonicalMatch(d, registered) == Some((SpecificityCode(otherRank, otherCount), otherQuality));
        assert d in Elements(entries);
        SpecificityIsLexicographic(otherRank, otherCount, rank, count);
        SpecificityIsLexicographic(rank, count, otherRank, otherCount);
      }
      assert Leads(entries, registered, rank, count, best.value.1);
    } else {
      forall e, rank: nat, count: nat, quality: nat | e in entries
        ensures !RangeMeans(e, registered, rank, count, quality)
      {
        assert e in Elements(entries);
      }
    }
  }

  // ---- Spellings that make no difference ----

  /** What comes after the quality is not looked at. */
  lemma AfterQualityIsIgnored(entry: string, tail: string, registered: string, k: nat)
    requires QualityAt(Split(entry, ';'), k) && k < |Split(entry, ';')|
    ensures CanonicalMatch(entry + ";" + tail, registered) == CanonicalMatch(entry, registered)
  {
    hide Split, SplitOnce, Lower, Trimmed, MatchParameters, Parameters, IsQuality;
    SplitOfJoined(entry, tail, ';');
    var parts, more := Split(entry, ';'), Split(tail, ';');
    assert (parts + more)[1..] == parts[1..] + more && (parts + more)[0] == parts[0];
    assert IsQuality(parts[1..][k - 1]);
    WalkStopsAtQuality(parts[1..], more, k - 1, Parameters(Split(registered, ';')[1..]), 0);
  }

  lemma {:induction false} WalkStopsAtQuality(
    parts: seq<string>, more: seq<string>, k: nat, params: seq<(string, string)>, matched: nat)
    requires k < |parts| && IsQuality(parts[k])
    ensures MatchParameters(parts + more, params, matched) == MatchParameters(parts, params, matched)
    decreases |parts|
  {
    hide ParseQuality, SplitOnce, Lower, Trimmed, IsKnown;
    assert (parts + more)[0] == parts[0] && (parts + more)[1..] == parts[1..] + more;
    ParamOfTrimmed(parts[0]);
    if k > 0 {
      WalkStopsAtQuality(parts[1..], more, k - 1, params, matched);
      WalkStopsAtQuality(parts[1..], more, k - 1, params, if matched < 0xFFFF then matched + 1 else matched);
    }
  }

  /** Two parts that say the same: neither is a parameter, or the names agree but
      for case, and so do the values, but for case and quotes; qualities agree. */
  predicate PartsAlike(p: string, q: string) {
    (Param(p).None? && Param(q).None?)
    || (Param(p).Some? && Param(q).Some? &&
        var (name, value), (otherName, otherValue) := Param(p).value, Param(q).value;
        && Lower(name) == Lower(otherName)
        && if Lower(name) == "q" then ParseQuality(value) == ParseQuality(otherValue)
           else Lower(Unquoted(value)) == Lower(Unquoted(otherValue)))
  }

  lemma {:induction false} AlikePartsWalkAlike(a: seq<string>, b: seq<string>, params: seq<(string, string)>, matched: nat)
    requires |a| == |b| && forall i :: 0 <= i < |a| ==> PartsAlike(a[i], b[i])
    ensures MatchParameters(a, params, matched) == MatchParameters(b, params, matched)
    decreases |a|
  {
    hide ParseQuality, SplitOnce, Lower, Trimmed, Unquoted;
    if a != [] {
      assert PartsAlike(a[0], b[0]);
      ParamOfTrimmed(a[0]);
      ParamOfTrimmed(b[0]);
      forall i | 0 <= i < |a| - 1
        ensures PartsAlike(a[1..][i], b[1..][i])
      {
        assert PartsAlike(a[i + 1], b[i + 1]);
      }
      AlikePartsWalkAlike(a[1..], b[1..], params, matched);
      AlikePartsWalkAlike(a[1..], b[1..], params, if matched < 0xFFFF then matched + 1 else matched);
    }
  }

  /** Ranges alike part by part match alike. */
  lemma AlikeRangesMatchAlike(a: string, b: string, registered: string)
    requires |Split(a, ';')| == |Split(b, ';')|
    requires Lower(Trimmed(Split(a, ';')[0])) == Lower(Trimmed(Split(b, ';')[0]))
    requires forall i :: 1 <= i < |Split(a, ';')| ==> PartsAlike(Split(a, ';')[i], Split(b, ';')[i])
    ensures CanonicalMatch(a, registered) == CanonicalMatch(b, registered)
  {
    hide Split, SplitOnce, Lower, Trimmed, MatchParameters, Parameters, PartsAlike, MediaSpecificity;
    var x, y := Split(a, ';'), Split(b, ';');
    forall i | 0 <= i < |x[1..]|
      ensures PartsAlike(x[1..][i], y[1..][i])
    {
      assert x[1..][i] == x[i + 1] && y[1..][i] == y[i + 1];
    }
    AlikePartsWalkAlike(x[1..], y[1..], Parameters(Split(registered, ';')[1..]), 0);
  }

  /** Space around the name and the value makes no difference. */
  lemma PaddingIsAlike(name: string, value: string, pads: seq<string>)
    requires '=' !in name && |pads| == 4 && forall i :: 0 <= i < 4 ==> Blank(pads[i], IsWhitespace)
    ensures PartsAlike(pads[0] + name + pads[1] + "=" + (pads[2] + value + pads[3]), name + "=" + value)
  {
    hide Lower, Unquoted, ParseQuality, Trim;
    var left, right := pads[0] + name + pads[1], pads[2] + value + pads[3];
    assert '=' !in pads[0] by {
      assert Blank(pads[0], IsWhitespace) && !IsWhitespace('=');
    }
    assert '=' !in pads[1] by {
      assert Blank(pads[1], IsWhitespace) && !IsWhitespace('=');
    }
    SplitOnceAt(left, right, '=');
    SplitOnceAt(name, value, '=');
    TrimIgnoresPadding(pads[0], name, pads[1], IsWhitespace);
    TrimIgnoresPadding(pads[2], value, pads[3], IsWhitespace);
  }

  /** So do quotes around a value, a quality's aside. */
  lemma QuotingIsAlike(name: string, value: string)
    requires '=' !in name && Lower(Trimmed(name)) != "q" && Trimmed(value) == value
    ensures PartsAlike(name + "=" + ("\"" + value + "\""), name + "=" + value)
  {
    hide Lower, ParseQuality;
    var quoted := "\"" + value + "\"";
    SplitOnceAt(name, quoted, '=');
    SplitOnceAt(name, value, '=');
    assert Blank("\"", IsQuote);
    TrimIgnoresPadding("\"", value, "\"", IsQuote);
    assert quoted[0] == '"' && quoted[|quoted| - 1] == '"' && !IsWhitespace('"');
    assert Trimmed(quoted) == quoted;
  }

  // ---- Case ----

  predicate IsLetter(c: char) {
    'A' <= c <= 'Z' || 'a' <= c <= 'z'
  }

  lemma LowerSame(x: char, c: char)
    requires !IsLetter(c)
    ensures LowerChar(x) == c <==> x == c
  {
  }

  lemma LowerIsIdempotent(s: string)
    ensures Lower(Lower(s)) == Lower(s)
  {
  }

  lemma {:induction false} SplitLower(s: string, c: char)
    requires !IsLetter(c)
    ensures |Split(Lower(s), c)| == |Split(s, c)|
    ensures forall i :: 0 <= i < |Split(s, c)| ==> Split(Lower(s), c)[i] == Lower(Split(s, c)[i])
  {
    if s != "" {
      assert Lower(s)[1..] == Lower(s[1..]);
      SplitLower(s[1..], c);
      LowerSame(s[0], c);
      var rest := Split(s[1..], c);
      assert Lower([s[0]] + rest[0]) == [LowerChar(s[0])] + Lower(rest[0]);
    }
  }

  lemma {:induction false} SplitOnceLower(s: string, c: char)
    requires !IsLetter(c)
    ensures SplitOnce(s, c).None? <==> SplitOnce(Lower(s), c).None?
    ensures SplitOnce(s, c).Some? ==>
              SplitOnce(Lower(s), c) == Some((Lower(SplitOnce(s, c).value.0), Lower(SplitOnce(s, c).value.1)))
  {
    if s != "" {
      assert Lower(s)[1..] == Lower(s[1..]);
      SplitOnceLower(s[1..], c);
      LowerSame(s[0], c);
      assert Lower("") == "";
      var rest := SplitOnce(s[1..], c);
      if s[0] != c && rest.Some? {
        assert Lower([s[0]] + rest.value.0) == [LowerChar(s[0])] + Lower(rest.value.0);
      }
    }
  }

  predicate CaseBlind(drop: char -> bool) {
    forall c: char :: drop(LowerChar(c)) == drop(c)
  }

  lemma {:induction false} TrimStartLower(s: string, drop: char -> bool)
    requires CaseBlind(drop)
    ensures TrimStart(Lower(s), drop) == Lower(TrimStart(s, drop))
  {
    if s != "" {
      assert Lower(s)[1..] == Lower(s[1..]);
      TrimStartLower(s[1..], drop);
    }
  }

  lemma {:induction false} TrimEndLower(s: string, drop: char -> bool)
    requires CaseBlind(drop)
    ensures TrimEnd(Lower(s), drop) == Lower(TrimEnd(s, drop))
  {
    if s != "" {
      var front := s[..|s| - 1];
      assert Lower(s)[..|s| - 1] == Lower(front);
      TrimEndLower(front, drop);
    }
  }

  lemma TrimLower(s: string)
    ensures Trimmed(Lower(s)) == Lower(Trimmed(s)) && Unquoted(Lower(s)) == Lower(Unquoted(s))
  {
    hide Lower;
    assert CaseBlind(IsWhitespace) && CaseBlind(IsQuote);
    TrimStartLower(s, IsWhitespace);
    TrimEndLower(TrimStart(s, IsWhitespace), IsWhitespace);
    TrimStartLower(s, IsQuote);
    TrimEndLower(TrimStart(s, IsQuote), IsQuote);
  }

  lemma QualityLower(value: string)
    ensures ParseQuality(Lower(value)) == ParseQuality(value)
  {
    SplitOnceLower(value, '.');
    var split := SplitOnce(value, '.');
    var whole := if split.Some? then split.value.0 else value;
    var fraction := if split.Some? then split.value.1 else "";
    DigitsLower(fraction);
    assert Lower(whole) == "0" <==> whole == "0" by {
      if |whole| == 1 {
        LowerSame(whole[0], '0');
      }
    }
    assert Lower(whole) == "1" <==> whole == "1" by {
      if |whole| == 1 {
        LowerSame(whole[0], '1');
      }
    }
    assert Lower("") == "";
  }

  lemma DigitsLower(s: string)
    ensures AllDigits(Lower(s)) <==> AllDigits(s)
    ensures AllDigits(s) ==> Lower(s) == s
    ensures |Lower(s)| == |s|
  {
    if AllDigits(Lower(s)) {
      forall i | 0 <= i < |s|
        ensures IsDigit(s[i])
      {
        assert IsDigit(Lower(s)[i]);
      }
    }
  }

  lemma LowerPartIsAlike(part: string)
    ensures PartsAlike(Lower(part), part)
  {
    hide Lower, Trimmed, Unquoted, ParseQuality, SplitOnce;
    SplitOnceLower(part, '=');
    var pair := SplitOnce(part, '=');
    if pair.Some? {
      var (name, value) := pair.value;
      TrimLower(name);
      TrimLower(value);
      TrimLower(Trimmed(value));
      LowerIsIdempotent(Trimmed(name));
      LowerIsIdempotent(Unquoted(Trimmed(value)));
      QualityLower(Trimmed(value));
    }
  }

  /** Case makes no difference anywhere in a range. */
  lemma CaseIsIgnored(entry: string, registered: string)
    ensures CanonicalMatch(Lower(entry), registered) == CanonicalMatch(entry, registered)
  {
    hide Lower, Trimmed, Split, PartsAlike, CanonicalMatch;
    SplitLower(entry, ';');
    var parts := Split(entry, ';');
    TrimLower(parts[0]);
    LowerIsIdempotent(Trimmed(parts[0]));
    forall i | 1 <= i < |parts|
      ensures PartsAlike(Split(Lower(entry), ';')[i], parts[i])
    {
      LowerPartIsAlike(parts[i]);
    }
    AlikeRangesMatchAlike(Lower(entry), entry, registered);
  }
}

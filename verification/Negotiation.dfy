/** Choosing the representation of a dependency graph from `Accept` and
    `format=` (src/routes/graph.rs). The registered media types are a
    parameter, `media`. */
module Negotiation {
  import opened Prelude
  import opened Text

  datatype Format = Json | Yaml | Toml | Dot | Mermaid

  datatype NegotiationError = UnsupportedFormat | FormatConflict

  type Media = Format -> string

  const FORMATS: seq<Format> := [Json, Yaml, Toml, Dot, Mermaid]

  /** (specificity, quality in thousandths). */
  type Match = (nat, nat)

  // ---- Small text helpers ----

  function LowerChar(c: char): char {
    if 'A' <= c <= 'Z' then (c as int + 32) as char else c
  }

  function Lower(s: string): string {
    seq(|s|, i requires 0 <= i < |s| => LowerChar(s[i]))
  }

  function Trimmed(s: string): string {
    Trim(s, IsWhitespace)
  }

  predicate IsQuote(c: char) {
    c == '"'
  }

  function Unquoted(s: string): string {
    Trim(s, IsQuote)
  }

  // ---- Qualities ----

  function Number(digits: string): nat
    requires forall i :: 0 <= i < |digits| ==> IsDigit(digits[i])
  {
    if digits == "" then 0
    else
      assert IsDigit(digits[|digits| - 1]);
      10 * Number(digits[..|digits| - 1]) + (digits[|digits| - 1] as int - '0' as int)
  }

  predicate AllDigits(s: string) {
    forall i :: 0 <= i < |s| ==> IsDigit(s[i])
  }

  function PadRight(s: string): (r: string)
    requires AllDigits(s)
    ensures AllDigits(r) && s <= r
    ensures |s| <= 3 ==> |r| == 3 && forall i :: |s| <= i < 3 ==> r[i] == '0'
    decreases if |s| < 3 then 3 - |s| else 0
  {
    if |s| >= 3 then s else PadRight(s + "0")
  }

  /** `parse_accept_quality`. */
  function ParseQuality(value: string): Option<nat> {
    var split := SplitOnce(value, '.');
    var whole := if split.Some? then split.value.0 else value;
    var fraction := if split.Some? then split.value.1 else "";
    if |fraction| > 3 || !AllDigits(fraction) then None
    else
      var thousandths := Number(PadRight(fraction));
      if whole == "0" then Some(thousandths)
      else if whole == "1" && thousandths == 0 then Some(1000)
      else None
  }

  function Digit(c: char): nat
    requires IsDigit(c)
  {
    c as int - '0' as int
  }

  /** The weight of up to three decimals, in thousandths. */
  function Thousandths(fraction: string): nat
    requires |fraction| <= 3 && AllDigits(fraction)
  {
    (if |fraction| >= 1 then 100 * Digit(fraction[0]) else 0)
    + (if |fraction| >= 2 then 10 * Digit(fraction[1]) else 0)
    + if |fraction| >= 3 then Digit(fraction[2]) else 0
  }

  /** The qvalue grammar of section 12.4.2 of RFC 9110, with its value: "0" or
      "0." and up to three digits; "1" or "1." and up to three zeros. */
  ghost predicate IsQvalue(value: string, quality: nat) {
    || (value == "0" && quality == 0)
    || (value == "1" && quality == 1000)
    || (exists fraction: string :: |fraction| <= 3 && AllDigits(fraction) && value == "0." + fraction && quality == Thousandths(fraction))
    || (exists fraction: string :: |fraction| <= 3 && AllDigits(fraction) && value == "1." + fraction && quality == 1000
          && Thousandths(fraction) == 0)
  }

  lemma PaddedNumber(fraction: string)
    requires |fraction| <= 3 && AllDigits(fraction)
    ensures Number(PadRight(fraction)) == Thousandths(fraction)
  {
    var s := PadRight(fraction);
    assert |s| == 3 && forall i :: 0 <= i < 3 ==> s[i] == if i < |fraction| then fraction[i] else '0';
    assert s[..2][..1] == s[..1] && s[..1][..0] == "";
    assert Number(s[..1]) == Digit(s[0]);
    assert Number(s[..2]) == 10 * Number(s[..1]) + Digit(s[1]);
    assert Number(s) == 10 * Number(s[..2]) + Digit(s[2]);
  }

  /** A quality parses exactly when it is a qvalue, to exactly its value. */
  lemma QualityIsQvalue(value: string, quality: nat)
    ensures ParseQuality(value) == Some(quality) <==> IsQvalue(value, quality)
  {
    SplitOnceMeans(value, '.');
    PaddedNumber("");
    var split := SplitOnce(value, '.');
    if split.Some? {
      var (whole, fraction) := split.value;
      if |fraction| <= 3 && AllDigits(fraction) {
        PaddedNumber(fraction);
        assert whole == "0" ==> value == "0." + fraction;
        assert whole == "1" ==> value == "1." + fraction;
      }
    }
    if fraction: string :| |fraction| <= 3 && AllDigits(fraction) && value == "0." + fraction && quality == Thousandths(fraction) {
      assert value == "0" + "." + fraction;
      SplitOnceAt("0", fraction, '.');
      PaddedNumber(fraction);
    }
    if fraction: string :| |fraction| <= 3 && AllDigits(fraction) && value == "1." + fraction && quality == 1000 && Thousandths(fraction) == 0 {
      assert value == "1" + "." + fraction;
      SplitOnceAt("1", fraction, '.');
      PaddedNumber(fraction);
    }
  }

  // ---- One media range against one registered type ----

  function Parameters(parts: seq<string>): seq<(string, string)> {
    if parts == [] then []
    else
      var pair := SplitOnce(Trimmed(parts[0]), '=');
      (if pair.Some? then [pair.value] else []) + Parameters(parts[1..])
  }

  predicate ParameterMatches(name: string, value: string, registered: (string, string)) {
    && Lower(Trimmed(name)) == Lower(Trimmed(registered.0))
    && Lower(Unquoted(Trimmed(value))) == Lower(Unquoted(Trimmed(registered.1)))
  }

  predicate IsKnown(name: string, value: string, registered: seq<(string, string)>) {
    exists i :: 0 <= i < |registered| && ParameterMatches(name, value, registered[i])
  }

  /** Walk the range's parameters: each before `q` must be registered; `q` ends
      the walk. Yields how many matched and the quality. */
  function MatchParameters(parts: seq<string>, registered: seq<(string, string)>, matched: nat): Option<(nat, nat)> {
    if parts == [] then Some((matched, 1000))
    else
      var pair := SplitOnce(Trimmed(parts[0]), '=');
      if pair.None? then MatchParameters(parts[1..], registered, matched)
      else if Lower(Trimmed(pair.value.0)) == "q" then
        var quality := ParseQuality(Trimmed(pair.value.1));
        Some((matched, if quality.Some? then quality.value else 0))
      else if IsKnown(pair.value.0, pair.value.1, registered) then
        MatchParameters(parts[1..], registered, if matched < 0xFFFF then matched + 1 else matched)
      else None
  }

  function MediaSpecificity(requested: (string, string), registered: (string, string)): Option<nat> {
    if requested == ("*", "*") then Some(0)
    else if requested.1 == "*" && requested.0 == registered.0 then Some(1)
    else if requested == registered then Some(2)
    else None
  }

  /** The one number that ranks a range's specificity. */
  function SpecificityCode(mediaSpecificity: nat, parameters: nat): nat {
    mediaSpecificity * 256 + if parameters < 255 then parameters else 255
  }

  function CanonicalMatch(entry: string, registered: string): Option<Match> {
    var parts := Split(entry, ';');
    var requested := SplitOnce(Lower(Trimmed(parts[0])), '/');
    var registeredParts := Split(registered, ';');
    var registeredType := SplitOnce(Trimmed(registeredParts[0]), '/');
    if requested.None? || registeredType.None? then None
    else
      var specificity := MediaSpecificity(requested.value, registeredType.value);
      var parameters := MatchParameters(parts[1..], Parameters(registeredParts[1..]), 0);
      if specificity.None? || parameters.None? then None
      else Some((SpecificityCode(specificity.value, parameters.value.0), parameters.value.1))
  }

  method CanonicalAcceptMatch(entry: string, registered: string) returns (result: Option<Match>)
    ensures result == CanonicalMatch(entry, registered)
  {
    hide Split, SplitOnce, Lower, Trimmed, ParseQuality, IsKnown, Parameters, MediaSpecificity, SpecificityCode;
    var parts := Split(entry, ';');
    var requested := SplitOnce(Lower(Trimmed(parts[0])), '/');
    if requested.None? {
      return None;
    }
    var registeredParts := Split(registered, ';');
    var registeredType := SplitOnce(Trimmed(registeredParts[0]), '/');
    if registeredType.None? {
      return None;
    }
    var registeredParameters := Parameters(registeredParts[1..]);
    var mediaSpecificity := MediaSpecificity(requested.value, registeredType.value);
    if mediaSpecificity.None? {
      return None;
    }
    var quality, matched := 1000, 0;
    var i := 1;
    while i < |parts|
      invariant 1 <= i <= |parts| && quality == 1000
      invariant MatchParameters(parts[i..], registeredParameters, matched) == MatchParameters(parts[1..], registeredParameters, 0)
    {
      assert parts[i..][0] == parts[i] && parts[i..][1..] == parts[i + 1..];
      var pair := SplitOnce(Trimmed(parts[i]), '=');
      if pair.Some? {
        if Lower(Trimmed(pair.value.0)) == "q" {
          var parsed := ParseQuality(Trimmed(pair.value.1));
          quality := if parsed.Some? then parsed.value else 0;
          break;
        }
        if !IsKnown(pair.value.0, pair.value.1, registeredParameters) {
          return None;
        }
        matched := if matched < 0xFFFF then matched + 1 else matched;
      }
      i := i + 1;
    }
    return Some((SpecificityCode(mediaSpecificity.value, matched), quality));
  }

  /** The code ranks by type match first, then by parameters up to 255. */
  lemma SpecificityIsLexicographic(media1: nat, parameters1: nat, media2: nat, parameters2: nat)
    ensures
      var p1, p2 := if parameters1 < 255 then parameters1 else 255, if parameters2 < 255 then parameters2 else 255;
      SpecificityCode(media1, parameters1) < SpecificityCode(media2, parameters2)
      <==> media1 < media2 || (media1 == media2 && p1 < p2)
  {
    if media1 < media2 {
      assert media1 * 256 + 256 <= media2 * 256;
    } else if media2 < media1 {
      assert media2 * 256 + 256 <= media1 * 256;
    }
  }

  // ---- All media ranges ----

  /** Higher specificity wins; between equals, higher quality. */
  predicate Better(a: Match, b: Match) {
    a.0 > b.0 || (a.0 == b.0 && a.1 > b.1)
  }

  function Pick(current: Option<Match>, candidate: Option<Match>): Option<Match> {
    if candidate.None? then current
    else if current.None? || Better(candidate.value, current.value) then candidate
    else current
  }

  function Best(entries: seq<string>, registered: string): Option<Match> {
    if entries == [] then None
    else Pick(Best(entries[..|entries| - 1], registered), CanonicalMatch(entries[|entries| - 1], registered))
  }

  function LineEntries(line: string): seq<string> {
    NonBlank(Split(line, ','))
  }

  function NonBlank(pieces: seq<string>): seq<string> {
    if pieces == [] then []
    else (if Trimmed(pieces[0]) == "" then [] else [pieces[0]]) + NonBlank(pieces[1..])
  }

  /** All media ranges of all field lines; None if a line is not readable text. */
  function HeaderEntries(lines: seq<Option<string>>): Option<seq<string>> {
    if lines == [] then Some([])
    else
      var front := HeaderEntries(lines[..|lines| - 1]);
      var last := lines[|lines| - 1];
      if front.None? || last.None? then None else Some(front.value + LineEntries(last.value))
  }

  /** Formats with a positive effective quality, in the fixed order. */
  function Accepted(formats: seq<Format>, entries: seq<string>, media: Media): seq<(Format, nat)> {
    if formats == [] then []
    else
      var best := Best(entries, media(formats[0]));
      (if best.Some? && best.value.1 > 0 then [(formats[0], best.value.1)] else [])
      + Accepted(formats[1..], entries, media)
  }

  lemma {:induction false} NonBlankAppend(a: seq<string>, b: seq<string>)
    ensures NonBlank(a + b) == NonBlank(a) + NonBlank(b)
  {
    if a == [] {
      assert a + b == b;
    } else {
      assert (a + b)[1..] == a[1..] + b;
      NonBlankAppend(a[1..], b);
    }
  }

  /** `parse_accept`: keep, per format, the best match over every media range of
      every line. */
  method ParseAccept(lines: seq<Option<string>>, media: Media)
    returns (accepted: Result<Option<seq<(Format, nat)>>, NegotiationError>)
    ensures
      var entries := HeaderEntries(lines);
      accepted == if entries.None? then Err(UnsupportedFormat)
                  else if entries.value == [] then Ok(None)
                  else Ok(Some(Accepted(FORMATS, entries.value, media)))
  {
    hide LineEntries, Best, Accepted, HeaderEntries;
    var sawEntry := false;
    var selected := new Option<Match>[5](_ => None);
    ghost var seen: seq<string> := [];
    var l := 0;
    NothingSeen(media);
    assert lines[..0] == [];
    while l < |lines|
      invariant 0 <= l <= |lines|
      invariant HeaderEntries(lines[..l]) == Some(seen)
      invariant sawEntry <==> seen != []
      invariant forall f :: 0 <= f < 5 ==> selected[f] == Best(seen, media(FORMATS[f]))
    {
      NextLine(lines, l);
      if lines[l].None? {
        return Err(UnsupportedFormat);
      }
      var any := ConsiderLine(lines[l].value, seen, media, selected);
      sawEntry := sawEntry || any;
      seen := seen + LineEntries(lines[l].value);
      l := l + 1;
    }
    assert lines[..l] == lines;
    if !sawEntry {
      return Ok(None);
    }
    var result := CollectAccepted(selected, seen, media);
    return Ok(Some(result));
  }

  lemma NothingSeen(media: Media)
    ensures HeaderEntries([]) == Some([])
    ensures forall f :: 0 <= f < 5 ==> Best([], media(FORMATS[f])).None?
  {
  }

  lemma NextLine(lines: seq<Option<string>>, l: nat)
    requires l < |lines|
    ensures lines[l].None? ==> HeaderEntries(lines).None?
    ensures lines[l].Some? && HeaderEntries(lines[..l]).Some? ==>
              HeaderEntries(lines[..l + 1]) == Some(HeaderEntries(lines[..l]).value + LineEntries(lines[l].value))
  {
    assert lines[..l + 1][..l] == lines[..l];
    if lines[l].None? {
      UnreadableLine(lines, l);
    }
  }

  /** The formats of positive quality, from their slots. */
  method CollectAccepted(selected: array<Option<Match>>, ghost seen: seq<string>, media: Media)
    returns (result: seq<(Format, nat)>)
    requires selected.Length == 5
    requires forall f :: 0 <= f < 5 ==> selected[f] == Best(seen, media(FORMATS[f]))
    ensures result == Accepted(FORMATS, seen, media)
  {
    hide Best, Accepted;
    result := [];
    var f := 0;
    assert FORMATS[0..] == FORMATS;
    while f < 5
      invariant 0 <= f <= 5
      invariant result + Accepted(FORMATS[f..], seen, media) == Accepted(FORMATS, seen, media)
    {
      AcceptedStep(FORMATS, f, seen, media);
      if selected[f].Some? && selected[f].value.1 > 0 {
        result := result + [(FORMATS[f], selected[f].value.1)];
      }
      f := f + 1;
    }
    AcceptedStep(FORMATS, 5, seen, media);
  }

  lemma AcceptedStep(formats: seq<Format>, f: nat, entries: seq<string>, media: Media)
    requires f <= |formats|
    ensures f == |formats| ==> Accepted(formats[f..], entries, media) == []
    ensures f < |formats| ==>
              var best := Best(entries, media(formats[f]));
              Accepted(formats[f..], entries, media)
              == (if best.Some? && best.value.1 > 0 then [(formats[f], best.value.1)] else [])
                 + Accepted(formats[f + 1..], entries, media)
  {
    if f < |formats| {
      assert formats[f..][1..] == formats[f + 1..];
    }
  }

  lemma NoPieces(pieces: seq<string>)
    ensures NonBlank(pieces[..0]) == []
  {
  }

  lemma NextPiece(pieces: seq<string>, p: nat)
    requires p < |pieces|
    ensures NonBlank(pieces[..p + 1]) == if Trimmed(pieces[p]) == "" then NonBlank(pieces[..p]) else NonBlank(pieces[..p]) + [pieces[p]]
  {
    assert pieces[..p + 1] == pieces[..p] + [pieces[p]] && [pieces[p]][1..] == [];
    NonBlankAppend(pieces[..p], [pieces[p]]);
    assert NonBlank([pieces[p]]) == (if Trimmed(pieces[p]) == "" then [] else [pieces[p]]) + NonBlank([]);
  }

  /** Every non-blank media range of one field line. */
  method ConsiderLine(line: string, ghost seen: seq<string>, media: Media, selected: array<Option<Match>>)
    returns (any: bool)
    requires selected.Length == 5
    requires forall f :: 0 <= f < 5 ==> selected[f] == Best(seen, media(FORMATS[f]))
    modifies selected
    ensures any <==> LineEntries(line) != []
    ensures forall f :: 0 <= f < 5 ==> selected[f] == Best(seen + LineEntries(line), media(FORMATS[f]))
  {
    hide Best, NonBlank, Trim;
    any := false;
    var pieces := Split(line, ',');
    ghost var now := seen;
    var p := 0;
    NoPieces(pieces);
    while p < |pieces|
      invariant 0 <= p <= |pieces|
      invariant now == seen + NonBlank(pieces[..p])
      invariant any <==> NonBlank(pieces[..p]) != []
      invariant forall f :: 0 <= f < 5 ==> selected[f] == Best(now, media(FORMATS[f]))
    {
      NextPiece(pieces, p);
      if Trimmed(pieces[p]) != "" {
        any := true;
        Consider(pieces[p], now, media, selected);
        now := now + [pieces[p]];
      }
      p := p + 1;
    }
    assert pieces[..p] == pieces;
  }

  /** One media range offered to every format's slot. */
  method Consider(entry: string, ghost seen: seq<string>, media: Media, selected: array<Option<Match>>)
    requires selected.Length == 5
    requires forall f :: 0 <= f < 5 ==> selected[f] == Best(seen, media(FORMATS[f]))
    modifies selected
    ensures forall f :: 0 <= f < 5 ==> selected[f] == Best(seen + [entry], media(FORMATS[f]))
  {
    hide Best, CanonicalMatch;
    var f := 0;
    while f < 5
      invariant 0 <= f <= 5
      invariant forall g :: 0 <= g < f ==> selected[g] == Best(seen + [entry], media(FORMATS[g]))
      invariant forall g :: f <= g < 5 ==> selected[g] == Best(seen, media(FORMATS[g]))
    {
      BestNext(seen, entry, media(FORMATS[f]));
      var candidate := CanonicalAcceptMatch(entry, media(FORMATS[f]));
      if candidate.Some? && (selected[f].None? || Better(candidate.value, selected[f].value)) {
        selected[f] := candidate;
      }
      f := f + 1;
    }
  }

  lemma BestNext(seen: seq<string>, entry: string, registered: string)
    ensures Best(seen + [entry], registered) == Pick(Best(seen, registered), CanonicalMatch(entry, registered))
  {
    assert (seen + [entry])[..|seen|] == seen;
  }

  lemma {:induction false} UnreadableLine(lines: seq<Option<string>>, l: nat)
    requires l < |lines| && lines[l].None?
    ensures HeaderEntries(lines).None?
  {
    if l < |lines| - 1 {
      UnreadableLine(lines[..|lines| - 1], l);
    }
  }

  // ---- Resolution ----

  function ParseFormatName(value: string): Option<Format> {
    var name := Lower(value);
    if name == "json" then Some(Json)
    else if name == "yaml" || name == "yml" then Some(Yaml)
    else if name == "toml" then Some(Toml)
    else if name == "dot" || name == "graphviz" then Some(Dot)
    else if name == "mermaid" || name == "mmd" then Some(Mermaid)
    else None
  }

  /** The first candidate of highest quality. */
  function FirstHighest(accepted: seq<(Format, nat)>): Option<(Format, nat)> {
    if accepted == [] then None
    else
      var front := FirstHighest(accepted[..|accepted| - 1]);
      var last := accepted[|accepted| - 1];
      if front.Some? && front.value.1 >= last.1 then front else Some(last)
  }

  function Resolve(entries: Option<seq<string>>, query: Option<string>, media: Media): Result<Format, NegotiationError> {
    var asked := if query.Some? then ParseFormatName(query.value) else None;
    if query.Some? && asked.None? then Err(UnsupportedFormat)
    else if entries.None? then Err(UnsupportedFormat)
    else if entries.value == [] then Ok(if asked.Some? then asked.value else Json)
    else
      var accepted := Accepted(FORMATS, entries.value, media);
      if asked.Some? then
        if exists i :: 0 <= i < |accepted| && accepted[i].0 == asked.value then Ok(asked.value) else Err(FormatConflict)
      else
        var chosen := FirstHighest(accepted);
        if chosen.Some? then Ok(chosen.value.0) else Err(UnsupportedFormat)
  }

  method ResolveFormat(lines: seq<Option<string>>, query: Option<string>, media: Media)
    returns (format: Result<Format, NegotiationError>)
    ensures format == Resolve(HeaderEntries(lines), query, media)
  {
    hide HeaderEntries, Accepted, ParseFormatName;
    var asked: Option<Format> := None;
    if query.Some? {
      asked := ParseFormatName(query.value);
      if asked.None? {
        return Err(UnsupportedFormat);
      }
    }
    var parsed := ParseAccept(lines, media);
    if parsed.Err? {
      return Err(UnsupportedFormat);
    }
    if parsed.value.None? {
      return Ok(if asked.Some? then asked.value else Json);
    }
    var accepted := parsed.value.value;
    if asked.Some? {
      if exists i :: 0 <= i < |accepted| && accepted[i].0 == asked.value {
        return Ok(asked.value);
      }
      return Err(FormatConflict);
    }
    var selected: Option<(Format, nat)> := None;
    var i := 0;
    while i < |accepted|
      invariant 0 <= i <= |accepted|
      invariant selected == FirstHighest(accepted[..i])
    {
      assert accepted[..i + 1][..i] == accepted[..i];
      if !(selected.Some? && selected.value.1 >= accepted[i].1) {
        selected := Some(accepted[i]);
      }
      i := i + 1;
    }
    assert accepted[..i] == accepted;
    return if selected.Some? then Ok(selected.value.0) else Err(UnsupportedFormat);
  }

  // ---- What the outcome depends on ----

  /** `best` is the top match among the ranges: some range attains it and none
      beats it; None when no range matches. */
  ghost predicate IsTop(entries: set<string>, registered: string, best: Option<Match>) {
    && (best.Some? ==> exists e :: e in entries && CanonicalMatch(e, registered) == best)
    && (forall e :: e in entries && CanonicalMatch(e, registered).Some? ==>
          best.Some? && !Better(CanonicalMatch(e, registered).value, best.value))
  }

  /** Each format's match comes from its most specific range. */
  lemma {:induction false} BestIsTop(entries: seq<string>, registered: string)
    ensures IsTop(Elements(entries), registered, Best(entries, registered))
  {
    hide CanonicalMatch;
    if entries != [] {
      var front, last := entries[..|entries| - 1], entries[|entries| - 1];
      BestIsTop(front, registered);
      assert entries == front + [last];
      assert Elements(entries) == Elements(front) + {last};
    }
  }

  lemma TopIsUnique(entries: set<string>, registered: string, a: Option<Match>, b: Option<Match>)
    requires IsTop(entries, registered, a) && IsTop(entries, registered, b)
    ensures a == b
  {
    hide CanonicalMatch;
  }

  lemma {:induction false} AcceptedDependsOnSet(formats: seq<Format>, a: seq<string>, b: seq<string>, media: Media)
    requires Elements(a) == Elements(b)
    ensures Accepted(formats, a, media) == Accepted(formats, b, media)
  {
    if formats != [] {
      BestIsTop(a, media(formats[0]));
      BestIsTop(b, media(formats[0]));
      TopIsUnique(Elements(a), media(formats[0]), Best(a, media(formats[0])), Best(b, media(formats[0])));
      AcceptedDependsOnSet(formats[1..], a, b, media);
    }
  }

  /** The outcome depends only on the set of media ranges: not on their order,
      their repetition, or how they are spread over field lines. */
  lemma ResolutionDependsOnSet(a: seq<string>, b: seq<string>, query: Option<string>, media: Media)
    requires Elements(a) == Elements(b)
    ensures Resolve(Some(a), query, media) == Resolve(Some(b), query, media)
  {
    AcceptedDependsOnSet(FORMATS, a, b, media);
    assert a == [] <==> b == [] by {
      assert a != [] ==> a[0] in Elements(a);
      assert b != [] ==> b[0] in Elements(b);
    }
  }

  /** One line holding two lists means the same as two lines. */
  lemma LinesSplitAnywhere(a: string, b: string)
    ensures LineEntries(a + "," + b) == LineEntries(a) + LineEntries(b)
  {
    SplitOfJoined(a, b, ',');
    NonBlankAppend(Split(a, ','), Split(b, ','));
  }

  /** A format's quality: that of its most specific range, 0 if none matches. */
  function Quality(entries: seq<string>, format: Format, media: Media): nat {
    var best := Best(entries, media(format));
    if best.Some? then best.value.1 else 0
  }

  lemma {:induction false} AcceptedMeans(formats: seq<Format>, entries: seq<string>, media: Media)
    ensures forall i :: 0 <= i < |Accepted(formats, entries, media)| ==>
              var candidate := Accepted(formats, entries, media)[i];
              candidate.0 in formats && candidate.1 == Quality(entries, candidate.0, media) > 0
    ensures forall f :: f in formats && Quality(entries, f, media) > 0 ==>
              (f, Quality(entries, f, media)) in Accepted(formats, entries, media)
  {
    if formats != [] {
      AcceptedMeans(formats[1..], entries, media);
      assert formats == [formats[0]] + formats[1..];
    }
  }

  lemma {:induction false} FirstHighestMeans(accepted: seq<(Format, nat)>)
    ensures accepted != [] <==> FirstHighest(accepted).Some?
    ensures accepted != [] ==>
              exists i :: 0 <= i < |accepted| && FirstHighest(accepted) == Some(accepted[i])
                && (forall j :: 0 <= j < |accepted| ==> accepted[j].1 <= accepted[i].1)
                && (forall j :: 0 <= j < i ==> accepted[j].1 < accepted[i].1)
  {
    if accepted != [] {
      var front, last := accepted[..|accepted| - 1], accepted[|accepted| - 1];
      FirstHighestMeans(front);
      assert forall j :: 0 <= j < |front| ==> front[j] == accepted[j];
      if front == [] || FirstHighest(front).value.1 < last.1 {
        assert FirstHighest(accepted) == Some(accepted[|accepted| - 1]);
      }
    }
  }

  lemma EveryFormatIsListed(f: Format)
    ensures f in FORMATS
  {
    assert FORMATS[0] == Json && FORMATS[1] == Yaml && FORMATS[2] == Toml && FORMATS[3] == Dot && FORMATS[4] == Mermaid;
  }

  function Preference(f: Format): nat {
    match f
    case Json => 0
    case Yaml => 1
    case Toml => 2
    case Dot => 3
    case Mermaid => 4
  }

  ghost predicate InOrder(formats: seq<Format>) {
    forall i, j :: 0 <= i < j < |formats| ==> Preference(formats[i]) < Preference(formats[j])
  }

  ghost predicate CandidatesInOrder(accepted: seq<(Format, nat)>) {
    forall i, j :: 0 <= i < j < |accepted| ==> Preference(accepted[i].0) < Preference(accepted[j].0)
  }

  lemma {:induction false} AcceptedInOrder(formats: seq<Format>, entries: seq<string>, media: Media)
    requires InOrder(formats)
    ensures CandidatesInOrder(Accepted(formats, entries, media))
  {
    hide Preference, Quality, Best;
    if formats != [] {
      var rest := Accepted(formats[1..], entries, media);
      AcceptedInOrder(formats[1..], entries, media);
      AcceptedMeans(formats[1..], entries, media);
      forall i | 0 <= i < |rest|
        ensures Preference(formats[0]) < Preference(rest[i].0)
      {
        var k :| 0 <= k < |formats[1..]| && formats[1..][k] == rest[i].0;
        assert formats[k + 1] == rest[i].0;
      }
    }
  }

  lemma FirstHighestIsPreferred(accepted: seq<(Format, nat)>)
    requires accepted != [] && CandidatesInOrder(accepted)
    ensures FirstHighest(accepted).Some? && FirstHighest(accepted).value in accepted
    ensures forall candidate :: candidate in accepted ==>
              && candidate.1 <= FirstHighest(accepted).value.1
              && (candidate.1 == FirstHighest(accepted).value.1 ==>
                    Preference(FirstHighest(accepted).value.0) <= Preference(candidate.0))
  {
    hide FirstHighest, Preference;
    FirstHighestMeans(accepted);
    var i :| 0 <= i < |accepted| && FirstHighest(accepted) == Some(accepted[i])
      && forall j :: 0 <= j < i ==> accepted[j].1 < accepted[i].1;
    forall j | 0 <= j < |accepted| && accepted[j].1 == accepted[i].1
      ensures Preference(accepted[i].0) <= Preference(accepted[j].0)
    {
      if j < i {
        assert false;
      }
    }
  }

  lemma EveryQualityIsListed(entries: seq<string>, media: Media)
    ensures
      var accepted := Accepted(FORMATS, entries, media);
      && (forall f :: Quality(entries, f, media) > 0 ==> (f, Quality(entries, f, media)) in accepted)
      && (forall candidate :: candidate in accepted ==> candidate.1 == Quality(entries, candidate.0, media) > 0)
      && CandidatesInOrder(accepted)
  {
    AcceptedMeans(FORMATS, entries, media);
    AcceptedInOrder(FORMATS, entries, media);
    hide Accepted, Quality, Preference;
    forall f | Quality(entries, f, media) > 0
      ensures (f, Quality(entries, f, media)) in Accepted(FORMATS, entries, media)
    {
      EveryFormatIsListed(f);
    }
  }

  lemma ResolveWithoutQuery(entries: seq<string>, media: Media)
    requires entries != []
    ensures
      var chosen := FirstHighest(Accepted(FORMATS, entries, media));
      Resolve(Some(entries), None, media) == if chosen.Some? then Ok(chosen.value.0) else Err(UnsupportedFormat)
  {
    hide Accepted, FirstHighest;
  }

  /** Without a query the chosen format has positive quality and none has a
      higher one, nor a format before it an equal one; negotiation fails exactly
      when every quality is zero. */
  lemma ChoosesHighestQuality(entries: seq<string>, media: Media)
    requires entries != []
    ensures Resolve(Some(entries), None, media).Ok? <==> exists f :: Quality(entries, f, media) > 0
    ensures Resolve(Some(entries), None, media).Ok? ==>
              var chosen := Resolve(Some(entries), None, media).value;
              Quality(entries, chosen, media) > 0
              && forall f :: Quality(entries, f, media) <= Quality(entries, chosen, media)
                   && (Quality(entries, f, media) == Quality(entries, chosen, media) ==> Preference(chosen) <= Preference(f))
  {
    hide Accepted, Quality, FirstHighest, Preference, Resolve, CandidatesInOrder;
    var accepted := Accepted(FORMATS, entries, media);
    EveryQualityIsListed(entries, media);
    ResolveWithoutQuery(entries, media);
    if accepted == [] {
      FirstHighestMeans(accepted);
    } else {
      FirstHighestIsPreferred(accepted);
      var chosen := FirstHighest(accepted).value;
      assert Quality(entries, chosen.0, media) == chosen.1 > 0;
      forall f
        ensures Quality(entries, f, media) <= chosen.1
        ensures Quality(entries, f, media) == chosen.1 ==> Preference(chosen.0) <= Preference(f)
      {
        if Quality(entries, f, media) > 0 {
          assert (f, Quality(entries, f, media)) in accepted;
        }
      }
    }
  }

  /** With a query the asked format is served exactly when the ranges, if any,
      leave it a positive quality. */
  lemma QueryIsHonouredIff(entries: seq<string>, query: string, media: Media)
    requires ParseFormatName(query).Some?
    ensures
      var asked := ParseFormatName(query).value;
      Resolve(Some(entries), Some(query), media)
      == if entries == [] || Quality(entries, asked, media) > 0 then Ok(asked) else Err(FormatConflict)
  {
    var asked := ParseFormatName(query).value;
    EveryFormatIsListed(asked);
    AcceptedMeans(FORMATS, entries, media);
    if Quality(entries, asked, media) > 0 {
      var accepted := Accepted(FORMATS, entries, media);
      var i :| 0 <= i < |accepted| && accepted[i] == (asked, Quality(entries, asked, media));
    }
  }

  // ---- Names and defaults ----

  /** The names a `format` query may use, in any case; no other name is known. */
  lemma FormatNames(value: string)
    ensures ParseFormatName(value) == Some(Json) <==> Lower(value) == "json"
    ensures ParseFormatName(value) == Some(Yaml) <==> Lower(value) in {"yaml", "yml"}
    ensures ParseFormatName(value) == Some(Toml) <==> Lower(value) == "toml"
    ensures ParseFormatName(value) == Some(Dot) <==> Lower(value) in {"dot", "graphviz"}
    ensures ParseFormatName(value) == Some(Mermaid) <==> Lower(value) in {"mermaid", "mmd"}
    ensures Lower("JSON") == "json" && Lower("Yml") == "yml" && Lower("a1-Z") == "a1-z"
  {
    var name := Lower(value);
    assert name == "json" ==> name[0] == 'j';
    assert name in {"yaml", "yml"} ==> name[0] == 'y';
    assert name == "toml" ==> name[0] == 't';
    assert name == "dot" ==> name[0] == 'd';
    assert name == "graphviz" ==> name[0] == 'g';
    assert name in {"mermaid", "mmd"} ==> name[0] == 'm';
  }

  /** Without any media range a known name is served as asked, and JSON if none is
      asked for. An unknown name, or an unreadable header, is not acceptable
      whatever else is sent. */
  lemma WithoutRanges(entries: Option<seq<string>>, query: string, media: Media)
    ensures Resolve(Some([]), None, media) == Ok(Json)
    ensures ParseFormatName(query).Some? ==> Resolve(Some([]), Some(query), media) == Ok(ParseFormatName(query).value)
    ensures ParseFormatName(query).None? ==> Resolve(entries, Some(query), media) == Err(UnsupportedFormat)
    ensures Resolve(None, None, media) == Err(UnsupportedFormat) == Resolve(None, Some(query), media)
  {
  }

  /** Ranges that leave every format without quality are not acceptable. */
  lemma NothingAcceptable(entries: seq<string>, media: Media)
    requires entries != [] && forall f :: Quality(entries, f, media) == 0
    ensures Resolve(Some(entries), None, media) == Err(UnsupportedFormat)
  {
    hide Quality, Resolve;
    ChoosesHighestQuality(entries, media);
    OnlyUnsupported(entries, media);
  }

  lemma OnlyUnsupported(entries: seq<string>, media: Media)
    ensures Resolve(Some(entries), None, media).Ok? || Resolve(Some(entries), None, media) == Err(UnsupportedFormat)
  {
  }

  /** A piece between commas is a media range exactly if it is not blank. */
  lemma OneEntry(piece: string)
    requires ',' !in piece
    ensures LineEntries(piece) == if Trimmed(piece) == "" then [] else [piece]
  {
    hide Split;
    SplitOfPiece(piece, ',');
    assert [piece][1..] == [];
    assert NonBlank([piece]) == (if Trimmed(piece) == "" then [] else [piece]) + NonBlank([]);
  }

  /** The ranges of all field lines, in order; none can be read if one line
      cannot. */
  lemma {:induction false} HeaderIsAllLines(lines: seq<Option<string>>, more: Option<string>)
    ensures HeaderEntries([]) == Some([])
    ensures HeaderEntries(lines + [more])
         == if HeaderEntries(lines).None? || more.None? then None
            else Some(HeaderEntries(lines).value + LineEntries(more.value))
  {
    assert (lines + [more])[..|lines|] == lines;
  }
}

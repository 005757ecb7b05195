/** The byte walk over a ZIP's central directory that decides whether the
    reserved binary descriptor is present (`descriptor_presence`,
    src/binary_artifact.rs). Header layout: section 4.3.12 of PKWARE
    APPNOTE.TXT; extra fields: section 4.5. */
module ZipDirectory {
  import opened Prelude
  import Text
  import opened ArchiveNames

  const HEADER_BYTES: nat := 46
  const U32_MAX: nat := 0xFFFF_FFFF
  const U16_MAX: nat := 0xFFFF
  const DESCRIPTOR_NAME := "pkg/.zpkg-binary.json"

  datatype Presence = Absent | Present

  datatype Violation = DataDescriptorBit | Zip64Sentinel | Zip64Extra | MalformedExtra

  datatype DirectoryError =
    | TruncatedHeader | TruncatedName | TruncatedExtra | TruncatedEntry
    | AliasedDescriptor | CountMismatch | NotCanonical(violation: Violation) | RepeatedDescriptor

  /** What the walk needs from outside: UTF-8 decoding and case folding. */
  datatype Host = Host(utf8: Bytes -> Option<string>, lower: Text.Fold)

  function Le16(b: Bytes, at: nat): nat
    requires at + 2 <= |b|
  {
    b[at] as nat + 256 * b[at + 1] as nat
  }

  function Le32(b: Bytes, at: nat): nat
    requires at + 4 <= |b|
  {
    Le16(b, at) + 0x1_0000 * Le16(b, at + 2)
  }

  function AsciiByte(c: char): byte {
    if c as int < 128 then c as int as byte else 0
  }

  function Ascii(s: string): Bytes {
    seq(|s|, i requires 0 <= i < |s| => AsciiByte(s[i]))
  }

  const SIGNATURE: Bytes := [0x50, 0x4B, 0x01, 0x02]

  // ---- Extra fields ----

  /** The TLV walk from `at`: None when malformed, else whether a ZIP64 record
      (kind 1) comes before any malformation. */
  function ContainsZip64(extra: Bytes, at: nat): Option<bool>
    requires at <= |extra|
    decreases |extra| - at
  {
    if at == |extra| then Some(false)
    else if at + 4 > |extra| then None
    else
      var end := at + 4 + Le16(extra, at + 2);
      if end > |extra| then None
      else if Le16(extra, at) == 1 then Some(true)
      else ContainsZip64(extra, end)
  }

  method ContainsZip64Extra(extra: Bytes) returns (found: Option<bool>)
    ensures found == ContainsZip64(extra, 0)
  {
    var offset := 0;
    while offset < |extra|
      invariant 0 <= offset <= |extra|
      invariant ContainsZip64(extra, offset) == ContainsZip64(extra, 0)
    {
      if offset + 4 > |extra| {
        return None;
      }
      var kind := Le16(extra, offset);
      var end := offset + 4 + Le16(extra, offset + 2);
      if end > |extra| {
        return None;
      }
      if kind == 1 {
        return Some(true);
      }
      offset := end;
    }
    return Some(false);
  }

  datatype Record = Record(kind: nat, data: Bytes)

  ghost predicate RecordsFit(records: seq<Record>) {
    forall i :: 0 <= i < |records| ==> records[i].kind <= U16_MAX && |records[i].data| <= U16_MAX
  }

  function EncodeLe16(n: nat): Bytes
    requires n <= U16_MAX
  {
    [(n % 256) as byte, (n / 256) as byte]
  }

  function EncodeRecord(r: Record): Bytes
    requires r.kind <= U16_MAX && |r.data| <= U16_MAX
  {
    EncodeLe16(r.kind) + EncodeLe16(|r.data|) + r.data
  }

  ghost function EncodeRecords(records: seq<Record>): Bytes
    requires RecordsFit(records)
  {
    if records == [] then [] else EncodeRecord(records[0]) + EncodeRecords(records[1..])
  }

  lemma Le16Decodes(n: nat, before: Bytes, after: Bytes)
    requires n <= U16_MAX
    ensures Le16(before + EncodeLe16(n) + after, |before|) == n
  {
    var all := before + EncodeLe16(n) + after;
    assert all[|before|] == EncodeLe16(n)[0] && all[|before| + 1] == EncodeLe16(n)[1];
  }

  predicate HasZip64(records: seq<Record>) {
    records != [] && (records[0].kind == 1 || HasZip64(records[1..]))
  }

  lemma RecordReadsBack(before: Bytes, r: Record, after: Bytes)
    requires r.kind <= U16_MAX && |r.data| <= U16_MAX
    ensures
      var extra, at := before + EncodeRecord(r) + after, |before|;
      && at + 4 + |r.data| <= |extra|
      && Le16(extra, at) == r.kind && Le16(extra, at + 2) == |r.data|
  {
    var extra := before + EncodeRecord(r) + after;
    Le16Decodes(r.kind, before, EncodeLe16(|r.data|) + r.data + after);
    Le16Decodes(|r.data|, before + EncodeLe16(r.kind), r.data + after);
    assert extra == before + EncodeLe16(r.kind) + (EncodeLe16(|r.data|) + r.data + after);
    assert extra == before + EncodeLe16(r.kind) + EncodeLe16(|r.data|) + (r.data + after);
  }

  /** On a well-formed extra field the walk answers whether a record has kind
      1, and nothing else. */
  lemma {:induction false} WellFormedExtra(before: Bytes, records: seq<Record>)
    requires RecordsFit(records)
    ensures ContainsZip64(before + EncodeRecords(records), |before|) == Some(HasZip64(records))
    decreases |records|
  {
    if records != [] {
      hide EncodeRecord, ContainsZip64;
      var r, rest := records[0], EncodeRecords(records[1..]);
      WalkTakesRecord(before, r, rest);
      assert before + EncodeRecords(records) == before + EncodeRecord(r) + rest;
      WellFormedExtra(before + EncodeRecord(r), records[1..]);
    } else {
      assert before + EncodeRecords(records) == before;
    }
  }

  lemma WalkTakesRecord(before: Bytes, r: Record, after: Bytes)
    requires r.kind <= U16_MAX && |r.data| <= U16_MAX
    ensures
      var extra := before + EncodeRecord(r) + after;
      ContainsZip64(extra, |before|)
      == if r.kind == 1 then Some(true) else ContainsZip64(extra, |before + EncodeRecord(r)|)
  {
    hide EncodeRecord, Le16;
    RecordReadsBack(before, r, after);
    EncodedRecordSize(r);
  }

  lemma EncodedRecordSize(r: Record)
    requires r.kind <= U16_MAX && |r.data| <= U16_MAX
    ensures |EncodeRecord(r)| == 4 + |r.data|
  {
  }

  /** Only well-formed extra fields without a ZIP64 record get the all-clear. */
  lemma {:induction false} AllClearIsWellFormed(extra: Bytes, at: nat) returns (records: seq<Record>)
    requires at <= |extra| && ContainsZip64(extra, at) == Some(false)
    ensures RecordsFit(records) && EncodeRecords(records) == extra[at..]
    ensures !HasZip64(records)
    decreases |extra| - at
  {
    if at == |extra| {
      records := [];
    } else {
      var len := Le16(extra, at + 2);
      var end := at + 4 + len;
      var rest := AllClearIsWellFormed(extra, end);
      var r := Record(Le16(extra, at), extra[at + 4..end]);
      records := [r] + rest;
      assert EncodeRecord(r) == extra[at..end];
      assert records[1..] == rest;
      assert extra[at..] == extra[at..end] + extra[end..];
    }
  }

  // ---- Headers ----

  /** One central-directory entry as it lies in the archive. */
  datatype Header = Header(fixed: Bytes, name: Bytes, extra: Bytes, comment: Bytes)

  ghost predicate HeaderFits(h: Header) {
    && |h.fixed| == HEADER_BYTES
    && h.fixed[..4] == SIGNATURE
    && Le16(h.fixed, 28) == |h.name|
    && Le16(h.fixed, 30) == |h.extra|
    && Le16(h.fixed, 32) == |h.comment|
  }

  ghost predicate HeadersFit(headers: seq<Header>) {
    forall i :: 0 <= i < |headers| ==> HeaderFits(headers[i])
  }

  function EncodeHeader(h: Header): Bytes {
    h.fixed + h.name + h.extra + h.comment
  }

  function EncodeHeaders(headers: seq<Header>): Bytes {
    if headers == [] then [] else EncodeHeader(headers[0]) + EncodeHeaders(headers[1..])
  }

  /** The first way a header departs from the plain encoding. */
  function ViolationOf(fixed: Bytes, extra: Bytes): Option<Violation>
    requires |fixed| == HEADER_BYTES
  {
    if Le16(fixed, 8) / 8 % 2 == 1 then Some(DataDescriptorBit)
    else if Le32(fixed, 20) == U32_MAX || Le32(fixed, 24) == U32_MAX || Le16(fixed, 34) == U16_MAX
            || Le32(fixed, 42) == U32_MAX
    then Some(Zip64Sentinel)
    else
      match ContainsZip64(extra, 0)
      case Some(true) => Some(Zip64Extra)
      case Some(false) => None
      case None => Some(MalformedExtra)
  }

  predicate IsExact(name: Bytes) {
    name == Ascii(DESCRIPTOR_NAME)
  }

  /** A different spelling that some host resolves to the reserved path. */
  predicate IsAlias(host: Host, name: Bytes) {
    && !IsExact(name)
    && host.utf8(name).Some?
    && Normalized(host.lower, host.utf8(name).value) == Some(DESCRIPTOR_NAME)
  }

  /** Verdict once the walk has ended. */
  function Conclude(exact: nat, entries: nat, violation: Option<Violation>, parserLen: nat): Result<Presence, DirectoryError> {
    if entries != parserLen then Err(CountMismatch)
    else if exact == 0 then Ok(Absent)
    else if exact > 1 then Err(RepeatedDescriptor)
    else if violation.Some? then Err(NotCanonical(violation.value))
    else Ok(Present)
  }

  /** The rest of the walk from `at`, with the counts so far. */
  function Walk(host: Host, archive: Bytes, at: nat, exact: nat, entries: nat, violation: Option<Violation>, parserLen: nat)
    : Result<Presence, DirectoryError>
    decreases |archive| - at
  {
    if at + 4 > |archive| || archive[at..at + 4] != SIGNATURE then Conclude(exact, entries, violation, parserLen)
    else if at + HEADER_BYTES > |archive| then Err(TruncatedHeader)
    else
      var fixed := archive[at..at + HEADER_BYTES];
      var nameStart := at + HEADER_BYTES;
      var nameEnd := nameStart + Le16(fixed, 28);
      var extraEnd := nameEnd + Le16(fixed, 30);
      if nameEnd > |archive| then Err(TruncatedName)
      else if extraEnd > |archive| then Err(TruncatedExtra)
      else
        var name, extra := archive[nameStart..nameEnd], archive[nameEnd..extraEnd];
        var found := if violation.Some? then violation else ViolationOf(fixed, extra);
        if IsAlias(host, name) then Err(AliasedDescriptor)
        else if extraEnd + Le16(fixed, 32) > |archive| then Err(TruncatedEntry)
        else
          Walk(host, archive, extraEnd + Le16(fixed, 32), if IsExact(name) then exact + 1 else exact,
               entries + 1, found, parserLen)
  }

  /** `descriptor_presence`, given where the parser located the directory and
      how many distinct names it indexed. For every byte string the walk stays
      in bounds and ends. */
  method DescriptorPresence(host: Host, archive: Bytes, directoryStart: nat, parserLen: nat)
    returns (presence: Result<Presence, DirectoryError>)
    ensures presence == Walk(host, archive, directoryStart, 0, 0, None, parserLen)
  {
    hide Le16, Le32, Normalized, ContainsZip64, Conclude, Ascii;
    var offset, exact, entries := directoryStart, 0, 0;
    var violation: Option<Violation> := None;
    while offset + 4 <= |archive| && archive[offset..offset + 4] == SIGNATURE
      invariant Walk(host, archive, offset, exact, entries, violation, parserLen)
             == Walk(host, archive, directoryStart, 0, 0, None, parserLen)
      decreases |archive| - offset
    {
      if offset + HEADER_BYTES > |archive| {
        return Err(TruncatedHeader);
      }
      var header := archive[offset..offset + HEADER_BYTES];
      var nameLen, extraLen, commentLen := Le16(header, 28), Le16(header, 30), Le16(header, 32);
      var found := violation;
      if Le16(header, 8) / 8 % 2 == 1 && found.None? {
        found := Some(DataDescriptorBit);
      }
      if (Le32(header, 20) == U32_MAX || Le32(header, 24) == U32_MAX || Le16(header, 34) == U16_MAX
          || Le32(header, 42) == U32_MAX) && found.None?
      {
        found := Some(Zip64Sentinel);
      }
      var nameStart := offset + HEADER_BYTES;
      var nameEnd := nameStart + nameLen;
      if nameEnd > |archive| {
        return Err(TruncatedName);
      }
      var raw := archive[nameStart..nameEnd];
      var extraEnd := nameEnd + extraLen;
      if extraEnd > |archive| {
        return Err(TruncatedExtra);
      }
      var extra := archive[nameEnd..extraEnd];
      var zip64 := ContainsZip64Extra(extra);
      if zip64 == Some(true) && found.None? {
        found := Some(Zip64Extra);
      } else if zip64.None? && found.None? {
        found := Some(MalformedExtra);
      }
      assert found == if violation.Some? then violation else ViolationOf(header, extra);
      violation := found;
      if IsExact(raw) {
        exact := exact + 1;
      } else {
        var name := host.utf8(raw);
        if name.Some? {
          var normalized := NormalizedArchivePath(host.lower, name.value);
          if normalized == Some(DESCRIPTOR_NAME) {
            return Err(AliasedDescriptor);
          }
        }
      }
      entries := entries + 1;
      if extraEnd + commentLen > |archive| {
        return Err(TruncatedEntry);
      }
      offset := extraEnd + commentLen;
    }
    return Conclude(exact, entries, violation, parserLen);
  }

  // ---- The walk on an encoded directory ----

  function ExactCount(headers: seq<Header>): nat {
    if headers == [] then 0 else (if IsExact(headers[0].name) then 1 else 0) + ExactCount(headers[1..])
  }

  ghost function FirstViolation(headers: seq<Header>): Option<Violation>
    requires HeadersFit(headers)
  {
    if headers == [] then None
    else if ViolationOf(headers[0].fixed, headers[0].extra).Some? then ViolationOf(headers[0].fixed, headers[0].extra)
    else FirstViolation(headers[1..])
  }

  ghost predicate EndsDirectory(tail: Bytes) {
    !(SIGNATURE <= tail)
  }

  lemma HeaderReadsBack(before: Bytes, h: Header, after: Bytes)
    requires HeaderFits(h)
    ensures
      var archive, at := before + EncodeHeader(h) + after, |before|;
      var nameEnd := at + HEADER_BYTES + |h.name|;
      && at + HEADER_BYTES + |h.name| + |h.extra| + |h.comment| <= |archive|
      && archive[at..at + 4] == SIGNATURE
      && archive[at..at + HEADER_BYTES] == h.fixed
      && archive[at + HEADER_BYTES..nameEnd] == h.name
      && archive[nameEnd..nameEnd + |h.extra|] == h.extra
  {
    var archive, at := before + EncodeHeader(h) + after, |before|;
    assert archive[at..at + HEADER_BYTES] == h.fixed;
    assert archive[at..at + 4] == h.fixed[..4];
  }

  predicate AnyAlias(host: Host, headers: seq<Header>) {
    headers != [] && (IsAlias(host, headers[0].name) || AnyAlias(host, headers[1..]))
  }

  lemma {:induction false} NoAliasIff(host: Host, headers: seq<Header>)
    ensures !AnyAlias(host, headers) <==> forall i :: 0 <= i < |headers| ==> !IsAlias(host, headers[i].name)
  {
    if headers != [] {
      NoAliasIff(host, headers[1..]);
      assert forall i :: 0 <= i < |headers[1..]| ==> headers[1..][i] == headers[i + 1];
    }
  }

  /** One header: the walk takes it whole and moves just past it. */
  lemma WalkTakesHeader(
    host: Host, before: Bytes, h: Header, after: Bytes,
    exact: nat, entries: nat, violation: Option<Violation>, parserLen: nat)
    requires HeaderFits(h)
    ensures
      var archive := before + EncodeHeader(h) + after;
      Walk(host, archive, |before|, exact, entries, violation, parserLen)
      == if IsAlias(host, h.name) then Err(AliasedDescriptor)
         else Walk(host, archive, |before + EncodeHeader(h)|, if IsExact(h.name) then exact + 1 else exact, entries + 1,
                   if violation.Some? then violation else ViolationOf(h.fixed, h.extra), parserLen)
  {
    hide Le16, Le32, ViolationOf, IsAlias, IsExact, Conclude;
    HeaderReadsBack(before, h, after);
  }

  lemma WalkEnds(
    host: Host, before: Bytes, tail: Bytes,
    exact: nat, entries: nat, violation: Option<Violation>, parserLen: nat)
    requires EndsDirectory(tail)
    ensures Walk(host, before + tail, |before|, exact, entries, violation, parserLen)
         == Conclude(exact, entries, violation, parserLen)
  {
    hide Le16, Le32, ViolationOf, IsAlias, IsExact, Conclude;
    var archive := before + tail;
    if |before| + 4 <= |archive| {
      assert archive[|before|..|before| + 4] == tail[..4];
    }
  }

  /** The walk visits exactly the encoded headers, in order. */
  lemma {:induction false} WalkVisitsHeaders(
    host: Host, before: Bytes, headers: seq<Header>, tail: Bytes,
    exact: nat, entries: nat, violation: Option<Violation>, parserLen: nat)
    requires HeadersFit(headers) && EndsDirectory(tail)
    ensures
      Walk(host, before + EncodeHeaders(headers) + tail, |before|, exact, entries, violation, parserLen)
      == if AnyAlias(host, headers) then Err(AliasedDescriptor)
         else Conclude(exact + ExactCount(headers), entries + |headers|,
                       if violation.Some? then violation else FirstViolation(headers), parserLen)
    decreases |headers|
  {
    hide Walk, EncodeHeader, IsAlias, IsExact, ViolationOf, Conclude, EndsDirectory, Le16;
    if headers == [] {
      WalkEnds(host, before, tail, exact, entries, violation, parserLen);
      assert before + EncodeHeaders(headers) + tail == before + tail;
    } else {
      var h, rest := headers[0], headers[1..];
      var after := EncodeHeaders(rest) + tail;
      assert before + EncodeHeaders(headers) + tail == before + EncodeHeader(h) + after;
      WalkTakesHeader(host, before, h, after, exact, entries, violation, parserLen);
      var before' := before + EncodeHeader(h);
      assert before + EncodeHeader(h) + after == before' + EncodeHeaders(rest) + tail;
      var found := if violation.Some? then violation else ViolationOf(h.fixed, h.extra);
      WalkVisitsHeaders(host, before', rest, tail, if IsExact(h.name) then exact + 1 else exact, entries + 1, found, parserLen);
    }
  }

  lemma {:induction false} NoViolationIff(headers: seq<Header>)
    requires HeadersFit(headers)
    ensures FirstViolation(headers).None?
       <==> forall i :: 0 <= i < |headers| ==> ViolationOf(headers[i].fixed, headers[i].extra).None?
  {
    if headers != [] {
      NoViolationIff(headers[1..]);
      assert forall i :: 0 <= i < |headers[1..]| ==> headers[1..][i] == headers[i + 1];
    }
  }

  lemma {:induction false} ExactlyOneIff(headers: seq<Header>)
    ensures ExactCount(headers) >= 1 <==> exists i :: 0 <= i < |headers| && IsExact(headers[i].name)
    ensures ExactCount(headers) >= 2 <==> exists i, j :: 0 <= i < j < |headers| && IsExact(headers[i].name) && IsExact(headers[j].name)
  {
    if headers != [] {
      var rest := headers[1..];
      ExactlyOneIff(rest);
      assert forall i :: 0 <= i < |rest| ==> rest[i] == headers[i + 1];
      assert forall i :: 1 <= i < |headers| ==> headers[i] == rest[i - 1];
    }
  }

  /** On any encoded directory: Present exactly when one raw name is the
      reserved path, no other name resolves to it, the parser indexed as many
      entries, and no header departs from the plain encoding. */
  lemma PresentIff(host: Host, before: Bytes, headers: seq<Header>, tail: Bytes, parserLen: nat)
    requires HeadersFit(headers) && EndsDirectory(tail)
    ensures
      Walk(host, before + EncodeHeaders(headers) + tail, |before|, 0, 0, None, parserLen) == Ok(Present)
      <==> && (exists i :: 0 <= i < |headers| && IsExact(headers[i].name))
           && !(exists i, j :: 0 <= i < j < |headers| && IsExact(headers[i].name) && IsExact(headers[j].name))
           && (forall i :: 0 <= i < |headers| ==> !IsAlias(host, headers[i].name))
           && |headers| == parserLen
           && (forall i :: 0 <= i < |headers| ==> ViolationOf(headers[i].fixed, headers[i].extra).None?)
  {
    hide Walk, EncodeHeaders, IsAlias, IsExact, ViolationOf, HeaderFits, EndsDirectory, ExactCount, FirstViolation, AnyAlias;
    WalkVisitsHeaders(host, before, headers, tail, 0, 0, None, parserLen);
    NoAliasIff(host, headers);
    NoViolationIff(headers);
    ExactlyOneIff(headers);
  }

  /** Absent exactly when no name is the reserved path under any spelling and
      the counts agree: an ordinary archive may use any encoding. */
  lemma AbsentIff(host: Host, before: Bytes, headers: seq<Header>, tail: Bytes, parserLen: nat)
    requires HeadersFit(headers) && EndsDirectory(tail)
    ensures
      Walk(host, before + EncodeHeaders(headers) + tail, |before|, 0, 0, None, parserLen) == Ok(Absent)
      <==> (forall i :: 0 <= i < |headers| ==> !IsExact(headers[i].name) && !IsAlias(host, headers[i].name))
           && |headers| == parserLen
  {
    hide Walk, EncodeHeaders, IsAlias, IsExact, ViolationOf, HeaderFits, EndsDirectory, ExactCount, FirstViolation, AnyAlias;
    WalkVisitsHeaders(host, before, headers, tail, 0, 0, None, parserLen);
    NoAliasIff(host, headers);
    ExactlyOneIff(headers);
  }

  function NamesOf(headers: seq<Header>): (names: seq<Bytes>)
    ensures |names| == |headers| && forall i :: 0 <= i < |headers| ==> names[i] == headers[i].name
  {
    if headers == [] then [] else [headers[0].name] + NamesOf(headers[1..])
  }

  /** What comparing the counts is for. The parser indexes entries by name, so
      its count is that of the distinct raw names; then a directory gets a
      verdict exactly when no raw name repeats, none resolves to the reserved
      path under another spelling, and, if the path itself is there, every
      header keeps to the plain encoding. */
  lemma VerdictIffNamesAreDistinct(host: Host, before: Bytes, headers: seq<Header>, tail: Bytes, parserLen: nat)
    requires HeadersFit(headers) && EndsDirectory(tail)
    requires parserLen == |Elements(NamesOf(headers))|
    ensures
      Walk(host, before + EncodeHeaders(headers) + tail, |before|, 0, 0, None, parserLen).Ok?
      <==> && DuplicateFree(NamesOf(headers))
           && (forall i :: 0 <= i < |headers| ==> !IsAlias(host, headers[i].name))
           && ((exists i :: 0 <= i < |headers| && IsExact(headers[i].name)) ==>
                 forall i :: 0 <= i < |headers| ==> ViolationOf(headers[i].fixed, headers[i].extra).None?)
  {
    hide Walk, EncodeHeaders, IsAlias, ViolationOf, HeaderFits, EndsDirectory, ExactCount, FirstViolation, AnyAlias;
    WalkVisitsHeaders(host, before, headers, tail, 0, 0, None, parserLen);
    NoAliasIff(host, headers);
    NoViolationIff(headers);
    ExactlyOneIff(headers);
    var names := NamesOf(headers);
    ElementCount(names);
    assert (exists i, j :: 0 <= i < j < |headers| && IsExact(headers[i].name) && IsExact(headers[j].name)) ==>
        !DuplicateFree(names) by {
      if i, j :| 0 <= i < j < |headers| && IsExact(headers[i].name) && IsExact(headers[j].name) {
        assert names[i] == names[j];
      }
    }
  }
}

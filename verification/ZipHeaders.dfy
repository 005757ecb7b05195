/** The verdict on a ZIP's central directory in terms of the fields of its
    entries, encoded at the offsets of section 4.3.12 of PKWARE APPNOTE.TXT
    (`descriptor_presence`, src/binary_artifact.rs). */
module ZipHeaders {
  import opened Prelude
  import opened ArchiveNames
  import opened ZipDirectory

  // ---- Extra fields ----

  /** Records one after the other, none of kind 1, and nothing else. */
  ghost predicate IsPlainExtra(extra: Bytes) {
    exists records :: RecordsFit(records) && !HasZip64(records) && extra == EncodeRecords(records)
  }

  /** Records, the last of them the first of kind 1, and then anything. */
  ghost predicate HasZip64Record(extra: Bytes) {
    exists records: seq<Record>, data: Bytes ::
      RecordsFit(records) && !HasZip64(records) && |data| <= U16_MAX
      && EncodeRecords(records) + EncodeRecord(Record(1, data)) <= extra
  }

  lemma {:induction false} WalkSkipsRecords(before: Bytes, records: seq<Record>, after: Bytes)
    requires RecordsFit(records) && !HasZip64(records)
    ensures
      var extra := before + EncodeRecords(records) + after;
      ContainsZip64(extra, |before|) == ContainsZip64(extra, |before + EncodeRecords(records)|)
    decreases |records|
  {
    hide EncodeRecord, ContainsZip64;
    if records != [] {
      var r, rest := records[0], records[1..];
      var before' := before + EncodeRecord(r);
      WalkTakesRecord(before, r, EncodeRecords(rest) + after);
      WalkSkipsRecords(before', rest, after);
      assert before + EncodeRecords(records) + after == before + EncodeRecord(r) + (EncodeRecords(rest) + after);
      assert before + EncodeRecords(records) + after == before' + EncodeRecords(rest) + after;
      assert before + EncodeRecords(records) == before' + EncodeRecords(rest);
    }
  }

  /** Where the walk found its record. */
  lemma {:induction false} Zip64IsFound(extra: Bytes, at: nat) returns (records: seq<Record>, data: Bytes)
    requires at <= |extra| && ContainsZip64(extra, at) == Some(true)
    ensures RecordsFit(records) && !HasZip64(records) && |data| <= U16_MAX
    ensures EncodeRecords(records) + EncodeRecord(Record(1, data)) <= extra[at..]
    decreases |extra| - at
  {
    var end := at + 4 + Le16(extra, at + 2);
    var r := Record(Le16(extra, at), extra[at + 4..end]);
    assert EncodeRecord(r) == extra[at..end];
    if r.kind == 1 {
      records, data := [], r.data;
      assert extra[at..][..|EncodeRecord(r)|] == extra[at..end];
    } else {
      var rest, found := Zip64IsFound(extra, end);
      records, data := [r] + rest, found;
      assert records[1..] == rest;
      assert extra[at..] == EncodeRecord(r) + extra[end..];
      assert EncodeRecords(records) + EncodeRecord(Record(1, data))
             == EncodeRecord(r) + (EncodeRecords(rest) + EncodeRecord(Record(1, data)));
    }
  }

  lemma ExtraMeans(extra: Bytes)
    ensures ContainsZip64(extra, 0) == Some(false) <==> IsPlainExtra(extra)
    ensures ContainsZip64(extra, 0) == Some(true) <==> HasZip64Record(extra)
  {
    hide ContainsZip64, EncodeRecord, EncodeRecords;
    assert extra[0..] == extra;
    if ContainsZip64(extra, 0) == Some(false) {
      var records := AllClearIsWellFormed(extra, 0);
    }
    if ContainsZip64(extra, 0) == Some(true) {
      var records, data := Zip64IsFound(extra, 0);
    }
    if records :| RecordsFit(records) && !HasZip64(records) && extra == EncodeRecords(records) {
      WellFormedExtra([], records);
      assert [] + EncodeRecords(records) == extra;
    }
    if records: seq<Record>, data: Bytes :|
      RecordsFit(records) && !HasZip64(records) && |data| <= U16_MAX
      && EncodeRecords(records) + EncodeRecord(Record(1, data)) <= extra
    {
      Zip64RecordIsSeen(extra, records, data);
    }
  }

  lemma Zip64RecordIsSeen(extra: Bytes, records: seq<Record>, data: Bytes)
    requires RecordsFit(records) && !HasZip64(records) && |data| <= U16_MAX
    requires EncodeRecords(records) + EncodeRecord(Record(1, data)) <= extra
    ensures ContainsZip64(extra, 0) == Some(true)
  {
    hide ContainsZip64, EncodeRecord, EncodeRecords;
    var r := Record(1, data);
    var front := EncodeRecords(records);
    var after := extra[|front + EncodeRecord(r)|..];
    assert extra == front + EncodeRecord(r) + after;
    WalkSkipsRecords([], records, EncodeRecord(r) + after);
    assert [] + front + (EncodeRecord(r) + after) == extra && [] + front == front;
    WalkTakesRecord(front, r, after);
  }

  // ---- Entries by their fields ----

  /** General purpose flags, bit 3 apart. */
  datatype Flags = Flags(below: nat, dataDescriptor: bool, above: nat)

  datatype Entry = Entry(
    madeBy: nat, needed: nat, flags: Flags, compression: nat, time: nat, date: nat, crc: nat,
    compressedSize: nat, expandedSize: nat, diskStart: nat, internalAttributes: nat, externalAttributes: nat,
    localOffset: nat, name: Bytes, extra: Bytes, comment: Bytes)

  predicate EntryFits(e: Entry) {
    && e.madeBy <= U16_MAX && e.needed <= U16_MAX && e.flags.below < 8 && e.flags.above < 0x1000
    && e.compression <= U16_MAX && e.time <= U16_MAX && e.date <= U16_MAX && e.crc <= U32_MAX
    && e.compressedSize <= U32_MAX && e.expandedSize <= U32_MAX && e.diskStart <= U16_MAX
    && e.internalAttributes <= U16_MAX && e.externalAttributes <= U32_MAX && e.localOffset <= U32_MAX
    && |e.name| <= U16_MAX && |e.extra| <= U16_MAX && |e.comment| <= U16_MAX
  }

  function FlagBits(f: Flags): nat {
    f.below + (if f.dataDescriptor then 8 else 0) + 16 * f.above
  }

  /** The n-th byte of a little-endian number. */
  function ByteOf(number: nat, n: nat): byte {
    (if n == 0 then number % 0x100 else if n == 1 then number / 0x100 % 0x100
     else if n == 2 then number / 0x1_0000 % 0x100 else number / 0x100_0000 % 0x100) as byte
  }

  /** The byte at each offset of the fixed part. */
  function FixedByte(e: Entry, at: nat): byte
    requires at < HEADER_BYTES
  {
    if at < 4 then SIGNATURE[at]
    else if at < 6 then ByteOf(e.madeBy, at - 4)
    else if at < 8 then ByteOf(e.needed, at - 6)
    else if at < 10 then ByteOf(FlagBits(e.flags), at - 8)
    else if at < 12 then ByteOf(e.compression, at - 10)
    else if at < 14 then ByteOf(e.time, at - 12)
    else if at < 16 then ByteOf(e.date, at - 14)
    else if at < 20 then ByteOf(e.crc, at - 16)
    else if at < 24 then ByteOf(e.compressedSize, at - 20)
    else if at < 28 then ByteOf(e.expandedSize, at - 24)
    else if at < 30 then ByteOf(|e.name|, at - 28)
    else if at < 32 then ByteOf(|e.extra|, at - 30)
    else if at < 34 then ByteOf(|e.comment|, at - 32)
    else if at < 36 then ByteOf(e.diskStart, at - 34)
    else if at < 38 then ByteOf(e.internalAttributes, at - 36)
    else if at < 42 then ByteOf(e.externalAttributes, at - 38)
    else ByteOf(e.localOffset, at - 42)
  }

  function FixedPart(e: Entry): (fixed: Bytes)
    ensures |fixed| == HEADER_BYTES
  {
    seq(HEADER_BYTES, at requires 0 <= at < HEADER_BYTES => FixedByte(e, at))
  }

  function HeaderOf(e: Entry): Header {
    Header(FixedPart(e), e.name, e.extra, e.comment)
  }

  lemma Number16(number: nat)
    requires number <= U16_MAX
    ensures ByteOf(number, 0) as nat + 256 * ByteOf(number, 1) as nat == number
  {
  }

  lemma Number32(number: nat)
    requires number <= U32_MAX
    ensures ByteOf(number, 0) as nat + 256 * ByteOf(number, 1) as nat
            + 0x1_0000 * (ByteOf(number, 2) as nat + 256 * ByteOf(number, 3) as nat) == number
  {
  }

  lemma FlagBitsFit(f: Flags)
    requires f.below < 8 && f.above < 0x1000
    ensures FlagBits(f) <= U16_MAX
    ensures FlagBits(f) / 8 % 2 == 1 <==> f.dataDescriptor
  {
    assert FlagBits(f) / 8 == 2 * f.above + if f.dataDescriptor then 1 else 0;
  }

  lemma FieldsReadBack(e: Entry)
    requires EntryFits(e)
    ensures
      var fixed := FixedPart(e);
      && fixed[..4] == SIGNATURE && Le16(fixed, 8) == FlagBits(e.flags)
      && Le32(fixed, 20) == e.compressedSize && Le32(fixed, 24) == e.expandedSize
      && Le16(fixed, 28) == |e.name| && Le16(fixed, 30) == |e.extra| && Le16(fixed, 32) == |e.comment|
      && Le16(fixed, 34) == e.diskStart && Le32(fixed, 42) == e.localOffset
  {
    hide ByteOf;
    FlagBitsFit(e.flags);
    Number16(FlagBits(e.flags));
    Number32(e.compressedSize);
    Number32(e.expandedSize);
    Number16(|e.name|);
    Number16(|e.extra|);
    Number16(|e.comment|);
    Number16(e.diskStart);
    Number32(e.localOffset);
    var fixed := FixedPart(e);
    assert fixed[..4] == SIGNATURE;
  }

  lemma HeaderOfFits(e: Entry)
    requires EntryFits(e)
    ensures HeaderFits(HeaderOf(e))
  {
    hide FixedPart, Le16, Le32;
    FieldsReadBack(e);
  }

  // ---- The plain encoding ----

  /** Some field stands for a value kept elsewhere. */
  predicate HasSentinel(e: Entry) {
    e.compressedSize == 0xFFFF_FFFF || e.expandedSize == 0xFFFF_FFFF || e.diskStart == 0xFFFF || e.localOffset == 0xFFFF_FFFF
  }

  ghost predicate IsPlain(e: Entry) {
    !e.flags.dataDescriptor && !HasSentinel(e) && IsPlainExtra(e.extra)
  }

  /** What an entry that is not plain is reported for. */
  ghost function Complaint(e: Entry): Violation {
    if e.flags.dataDescriptor then DataDescriptorBit
    else if HasSentinel(e) then Zip64Sentinel
    else if HasZip64Record(e.extra) then Zip64Extra
    else MalformedExtra
  }

  lemma ViolationMeans(e: Entry)
    requires EntryFits(e)
    ensures ViolationOf(FixedPart(e), e.extra) == if IsPlain(e) then None else Some(Complaint(e))
  {
    hide FixedPart, Le16, Le32, ContainsZip64, IsPlainExtra, HasZip64Record;
    FieldsReadBack(e);
    FlagBitsFit(e.flags);
    ExtraMeans(e.extra);
  }

  // ---- The reserved name ----

  /** The very bytes of the reserved path. */
  predicate IsReserved(name: Bytes) {
    var path := "pkg/.zpkg-binary.json";
    |name| == |path| && forall i :: 0 <= i < |path| ==> name[i] as int == path[i] as int
  }

  /** Other bytes that some host resolves to it. */
  predicate IsOtherSpelling(host: Host, name: Bytes) {
    !IsReserved(name) && host.utf8(name).Some? && Normalized(host.lower, host.utf8(name).value) == Some("pkg/.zpkg-binary.json")
  }

  lemma NamesMean(host: Host, name: Bytes)
    ensures IsExact(name) <==> IsReserved(name)
    ensures IsAlias(host, name) <==> IsOtherSpelling(host, name)
  {
    var path := "pkg/.zpkg-binary.json";
    PathIsAscii();
    assert |Ascii(path)| == |path| && forall i :: 0 <= i < |path| ==> Ascii(path)[i] as int == path[i] as int;
    if IsReserved(name) {
      assert name == Ascii(path);
    }
  }

  lemma PathIsAscii()
    ensures forall i :: 0 <= i < |"pkg/.zpkg-binary.json"| ==> "pkg/.zpkg-binary.json"[i] as int < 128
  {
  }

  // ---- The verdict ----

  function HeadersOf(entries: seq<Entry>): (headers: seq<Header>)
    ensures |headers| == |entries| && forall i :: 0 <= i < |entries| ==> headers[i] == HeaderOf(entries[i])
  {
    if entries == [] then [] else [HeaderOf(entries[0])] + HeadersOf(entries[1..])
  }

  ghost predicate EntriesFit(entries: seq<Entry>) {
    forall i :: 0 <= i < |entries| ==> EntryFits(entries[i])
  }

  lemma HeadersOfFit(entries: seq<Entry>)
    requires EntriesFit(entries)
    ensures HeadersFit(HeadersOf(entries))
  {
    hide HeaderFits, HeaderOf;
    forall i | 0 <= i < |entries|
      ensures HeaderFits(HeadersOf(entries)[i])
    {
      HeaderOfFits(entries[i]);
    }
  }

  /** The first entry that is not plain. */
  ghost predicate FirstNotPlain(entries: seq<Entry>, k: nat) {
    k < |entries| && !IsPlain(entries[k]) && forall i :: 0 <= i < k ==> IsPlain(entries[i])
  }

  lemma FirstViolationOfNone()
    ensures FirstViolation(HeadersOf([])).None?
  {
  }

  lemma {:induction false} FirstViolationStep(entries: seq<Entry>)
    requires entries != [] && HeadersFit(HeadersOf(entries)) && HeadersFit(HeadersOf(entries[1..]))
    ensures
      var violation := ViolationOf(FixedPart(entries[0]), entries[0].extra);
      FirstViolation(HeadersOf(entries)) == if violation.Some? then violation else FirstViolation(HeadersOf(entries[1..]))
  {
    hide FixedPart, ViolationOf, HeaderFits;
    assert HeadersOf(entries)[1..] == HeadersOf(entries[1..]);
  }

  lemma {:induction false} FirstViolationMeans(entries: seq<Entry>)
    requires EntriesFit(entries) && HeadersFit(HeadersOf(entries))
    ensures FirstViolation(HeadersOf(entries)).None? <==> forall i :: 0 <= i < |entries| ==> IsPlain(entries[i])
    ensures forall k: nat :: FirstNotPlain(entries, k) ==> FirstViolation(HeadersOf(entries)) == Some(Complaint(entries[k]))
  {
    hide IsPlain, Complaint, HeaderFits, ViolationOf, FixedPart, HeadersOf, FirstViolation, EntryFits;
    if entries == [] {
      FirstViolationOfNone();
    } else {
      var rest := entries[1..];
      assert EntryFits(entries[0]) && EntriesFit(rest);
      HeadersOfFit(rest);
      ViolationMeans(entries[0]);
      FirstViolationMeans(rest);
      FirstViolationStep(entries);
      assert forall i :: 1 <= i < |entries| ==> entries[i] == rest[i - 1];
      forall k: nat | FirstNotPlain(entries, k)
        ensures FirstViolation(HeadersOf(entries)) == Some(Complaint(entries[k]))
      {
        if k > 0 {
          assert IsPlain(entries[0]);
          assert forall i :: 0 <= i < k - 1 ==> rest[i] == entries[i + 1];
          assert FirstNotPlain(rest, k - 1);
        }
      }
    }
  }

  predicate HasReserved(entries: seq<Entry>) {
    exists i :: 0 <= i < |entries| && IsReserved(entries[i].name)
  }

  predicate HasReservedTwice(entries: seq<Entry>) {
    exists i, j :: 0 <= i < j < |entries| && IsReserved(entries[i].name) && IsReserved(entries[j].name)
  }

  predicate HasOtherSpelling(host: Host, entries: seq<Entry>) {
    exists i :: 0 <= i < |entries| && IsOtherSpelling(host, entries[i].name)
  }

  lemma ExactMeans(entries: seq<Entry>)
    ensures ExactCount(HeadersOf(entries)) >= 1 <==> HasReserved(entries)
    ensures ExactCount(HeadersOf(entries)) >= 2 <==> HasReservedTwice(entries)
  {
    hide IsExact, IsReserved, ExactCount, FixedPart;
    var headers := HeadersOf(entries);
    ExactlyOneIff(headers);
    forall i | 0 <= i < |entries|
      ensures IsExact(headers[i].name) <==> IsReserved(entries[i].name)
    {
      NamesMean(Host(b => None, s => s), entries[i].name);
    }
  }

  lemma AliasMeans(host: Host, entries: seq<Entry>)
    ensures AnyAlias(host, HeadersOf(entries)) <==> HasOtherSpelling(host, entries)
  {
    hide IsAlias, IsOtherSpelling, AnyAlias, FixedPart;
    var headers := HeadersOf(entries);
    NoAliasIff(host, headers);
    forall i | 0 <= i < |entries|
      ensures IsAlias(host, headers[i].name) <==> IsOtherSpelling(host, entries[i].name)
    {
      NamesMean(host, entries[i].name);
    }
  }

  /** Every verdict on an encoded directory: another spelling of the reserved path
      is refused; then a count that differs from the parser's; without the path
      the archive is an ordinary one; with it twice it is refused; with it once,
      the first entry that is not plain is reported, and if all are, the
      descriptor is there. */
  lemma DirectoryVerdict(host: Host, before: Bytes, entries: seq<Entry>, tail: Bytes, parserLen: nat)
    requires EntriesFit(entries) && EndsDirectory(tail)
    ensures
      var verdict := Walk(host, before + EncodeHeaders(HeadersOf(entries)) + tail, |before|, 0, 0, None, parserLen);
      if HasOtherSpelling(host, entries) then verdict == Err(AliasedDescriptor)
      else if |entries| != parserLen then verdict == Err(CountMismatch)
      else if !HasReserved(entries) then verdict == Ok(Absent)
      else if HasReservedTwice(entries) then verdict == Err(RepeatedDescriptor)
      else
        && (verdict == Ok(Present) <==> forall i :: 0 <= i < |entries| ==> IsPlain(entries[i]))
        && (forall k: nat :: FirstNotPlain(entries, k) ==> verdict == Err(NotCanonical(Complaint(entries[k]))))
  {
    hide Walk, EncodeHeaders, HasOtherSpelling, HasReserved, HasReservedTwice, IsPlain, Complaint, EndsDirectory, HeaderFits,
         ExactCount, FirstViolation, AnyAlias, HeadersOf, FirstNotPlain;
    HeadersOfFit(entries);
    WalkVisitsHeaders(host, before, HeadersOf(entries), tail, 0, 0, None, parserLen);
    FirstViolationMeans(entries);
    ExactMeans(entries);
    AliasMeans(host, entries);
  }
}

/**
 What the bytes of an ARM64X image mean, byte by byte at the offsets of the file format, and that the parser
 of `Arm64xImage` accepts exactly the images they describe.
 */
module Arm64xLayout {
  import opened Options
  import opened LittleEndian
  import opened Arm64xImage

  lemma Reads16(b: seq<Byte>, at: nat)
    requires at + 2 <= |b|
    ensures Read(b, at, 2) == U16(b, at)
  {
    Decoded16(b, at);
  }

  lemma Reads32(b: seq<Byte>, at: nat)
    requires at + 4 <= |b|
    ensures ReadU32(b, at) == U32(b, at)
  {
    Decoded32(b, at);
  }

  lemma Reads64(b: seq<Byte>, at: nat)
    requires at + 8 <= |b|
    ensures Read(b, at, 8) == U64(b, at)
  {
    Decoded64(b, at);
  }

  // ---- Headers ----

  ghost predicate Machine(machine: nat, mapped: bool) {
    machine == 0xAA64 || machine == 0xA64E || (mapped && (machine == 0xA641 || machine == 0x8664))
  }

  /** What of the headers is wrong, and in which order that is found out. */
  ghost function HeaderVerdict(b: seq<Byte>, mapped: bool, maxSections: nat): Status {
    if |b| < 64 then Truncated
    else if b[0] != 0x4D || b[1] != 0x5A || U32(b, 60) < 64 then BadDosHeader
    else
      var pe := U32(b, 60);
      if pe + 24 > |b| then Truncated
      else if U32(b, pe) != 0x4550 then BadPeSignature
      else if !Machine(U16(b, pe + 4), mapped) then UnsupportedFormat
      else if U16(b, pe + 6) == 0 || U16(b, pe + 6) > maxSections then LimitExceeded
      else if pe + 24 + U16(b, pe + 20) > |b| then Truncated
      else if U16(b, pe + 20) < 200 then BadOptionalHeader
      else if U16(b, pe + 24) != 0x20B then UnsupportedFormat
      else if U32(b, pe + 60) == 0 || U32(b, pe + 56) < U32(b, pe + 60) || U32(b, pe + 80) == 0 || U32(b, pe + 84) == 0
              || U32(b, pe + 84) > |b| || U32(b, pe + 132) <= 10 || (mapped && U32(b, pe + 80) > |b|)
      then BadOptionalHeader
      else if pe + 24 + U16(b, pe + 20) + 40 * U16(b, pe + 6) > |b| then BadSectionTable
      else Status.Ok
  }

  /** The fixed part of the headers is read as the file format lays it out, and refused for the first thing wrong in it. */
  lemma HeadersSay(b: seq<Byte>, mapped: bool, maxSections: nat)
    ensures ReadHeaders(b, mapped, maxSections).status == HeaderVerdict(b, mapped, maxSections)
    ensures ReadHeaders(b, mapped, maxSections).status == Status.Ok ==>
              var h := ReadHeaders(b, mapped, maxSections).headers;
              var pe := U32(b, 60);
              && pe + 224 <= |b| && h.machine == U16(b, pe + 4) && h.imageBase == U64(b, pe + 48) && h.sizeOfImage == U32(b, pe + 80)
              && h.sizeOfHeaders == U32(b, pe + 84) && h.sectionCount == U16(b, pe + 6)
              && h.sectionTable == pe + 24 + U16(b, pe + 20) && h.directory == pe + 216
  {
    hide Read, ReadU32, U16, U32, U64;
    if |b| >= 64 {
      Reads32(b, 60);
      var pe := U32(b, 60);
      if pe + 24 <= |b| {
        Reads32(b, pe);
        Reads16(b, pe + 4);
        Reads16(b, pe + 6);
        Reads16(b, pe + 20);
        if U16(b, pe + 20) >= 200 && pe + 24 + U16(b, pe + 20) <= |b| {
          Reads16(b, pe + 24);
          Reads64(b, pe + 48);
          Reads32(b, pe + 56);
          Reads32(b, pe + 60);
          Reads32(b, pe + 80);
          Reads32(b, pe + 84);
          Reads32(b, pe + 132);
        }
      }
    }
  }

  ghost predicate SectionSaid(b: seq<Byte>, at: nat, s: Section) {
    && at + 40 <= |b| && s.virtualSize == U32(b, at + 8) && s.virtualAddress == U32(b, at + 12) && s.rawSize == U32(b, at + 16)
    && s.rawPointer == U32(b, at + 20) && s.characteristics == U32(b, at + 36)
  }

  /** Sizes, base and sections of an image are those of its headers. */
  ghost predicate HeadersSaid(b: seq<Byte>, image: Image)
    requires |b| >= 64
  {
    var pe := U32(b, 60);
    && pe + 88 <= |b| && image.byteCount == |b| && image.imageBase == U64(b, pe + 48)
    && image.sizeOfImage == U32(b, pe + 80) && image.sizeOfHeaders == U32(b, pe + 84)
    && |image.sections| == U16(b, pe + 6)
    && forall i :: 0 <= i < |image.sections| ==> SectionSaid(b, pe + 24 + U16(b, pe + 20) + 40 * i, image.sections[i])
  }

  lemma SectionSays(b: seq<Byte>, at: nat, s: Section)
    requires at + 40 <= |b|
    ensures SectionSaid(b, at, s) <==> s == SectionAt(b, at)
  {
    Reads32(b, at + 8);
    Reads32(b, at + 12);
    Reads32(b, at + 16);
    Reads32(b, at + 20);
    Reads32(b, at + 36);
  }

  lemma SectionsSay(b: seq<Byte>, offset: nat, count: nat, sections: seq<Section>)
    requires offset + 40 * count <= |b|
    ensures sections == RawSections(b, offset, count)
       <==> |sections| == count && forall i :: 0 <= i < count ==> SectionSaid(b, offset + 40 * i, sections[i])
  {
    hide SectionSaid, SectionAt;
    var raw := RawSections(b, offset, count);
    forall i | 0 <= i < count ensures SectionSaid(b, offset + 40 * i, raw[i]) {
      SectionSays(b, offset + 40 * i, raw[i]);
    }
    if |sections| == count && forall i :: 0 <= i < count ==> SectionSaid(b, offset + 40 * i, sections[i]) {
      forall i | 0 <= i < count ensures sections[i] == raw[i] {
        SectionSays(b, offset + 40 * i, sections[i]);
      }
    }
  }

  // ---- Where a span of the image lies among the bytes ----

  ghost predicate InSection(s: Section, rva: nat, size: nat, at: nat) {
    s.virtualAddress <= rva && rva + size <= s.virtualAddress + s.rawSize && at == s.rawPointer + rva - s.virtualAddress
  }

  /** A mapped image has a span at its address, a file in its headers or else where a section keeps it. */
  ghost predicate Located(image: Image, mapped: bool, rva: nat, size: nat, at: nat) {
    && 0 < size && rva + size <= image.sizeOfImage && at + size <= image.byteCount
    && (if mapped || (rva + size <= image.sizeOfHeaders && rva + size <= image.byteCount) then at == rva
        else exists i :: 0 <= i < |image.sections| && InSection(image.sections[i], rva, size, at))
  }

  /** The parser looks for a span in the one place it can be. */
  lemma Locating(image: Image, mapped: bool, rva: nat, size: nat)
    requires SectionsOk(image.sections, image.sizeOfImage) && image.sizeOfImage <= 0xFFFF_FFFF
    ensures var o := ParserOffset(image, mapped, rva, size);
            && (o.status == Status.Ok ==> Located(image, mapped, rva, size, o.value))
            && forall at :: Located(image, mapped, rva, size, at) ==> o == Offset(Status.Ok, at)
  {
    if !mapped && size > 0 && rva + size <= image.sizeOfImage && !InHeaders(image, rva, size) {
      hide FileOffset, SectionsOk, SectionOf;
      FileOffsetInSection(image, rva, size);
      forall i, at: nat | 0 <= i < |image.sections| && InSection(image.sections[i], rva, size, at) && at + size <= image.byteCount
        ensures SectionOf(image.sections, rva, size) == Some(i)
      {
        InOneSection(image, rva, size, i);
      }
    }
  }

  lemma InOneSection(image: Image, rva: nat, size: nat, i: nat)
    requires SectionsOk(image.sections, image.sizeOfImage) && size > 0 && rva + size <= image.sizeOfImage <= 0xFFFF_FFFF
    requires i < |image.sections| && HoldsRaw(image.sections[i], rva, size, image.byteCount)
    ensures SectionOf(image.sections, rva, size) == Some(i)
  {
    assert SectionFits(image.sections[i], image.sizeOfImage);
    assert ContainsSpan(image.sections[i], rva, size);
    var j := SectionOf(image.sections, rva, size).value;
    OneSection(image.sections, image.sizeOfImage, i, j, rva);
  }

  // ---- Metadata ----

  /** The load configuration, long enough to point to the metadata, and the address it gives. */
  ghost predicate ConfigAt(b: seq<Byte>, image: Image, mapped: bool, directory: nat, config: nat, va: nat) {
    && image.byteCount == |b| && directory + 8 <= |b| && U32(b, directory) != 0 && U32(b, directory + 4) >= 0xD0
    && Located(image, mapped, U32(b, directory), 0xD0, config) && U32(b, config) >= 0xD0 && va == U64(b, config + 0xC8)
  }

  ghost predicate VersionAt(b: seq<Byte>, image: Image, mapped: bool, base: nat, va: nat, v: nat) {
    image.byteCount == |b| && base <= va <= base + 0xFFFF_FFFF && Located(image, mapped, va - base, 4, v)
  }

  ghost predicate KnownVersion(b: seq<Byte>, v: nat) {
    v + 4 <= |b| && 1 <= U32(b, v) <= 2
  }

  /** A metadata record of version 1 or 2, whose version is read at `v` and whose fields at `m`. */
  ghost predicate RecordAt(b: seq<Byte>, image: Image, mapped: bool, base: nat, va: nat, v: nat, m: nat) {
    && va != 0 && VersionAt(b, image, mapped, base, va, v) && KnownVersion(b, v)
    && Located(image, mapped, va - base, if U32(b, v) == 1 then 80 else 92, m)
  }

  /** What is wrong with a metadata record that starts at the address `va`. */
  ghost function RecordVerdict(b: seq<Byte>, image: Image, mapped: bool, base: nat, va: nat): Status {
    if va == 0 then NoChpeMetadata
    else if va < base || va > base + 0xFFFF_FFFF then BadLoadConfig
    else if forall v :: !VersionAt(b, image, mapped, base, va, v) then BadChpeMetadata
    else if forall v :: VersionAt(b, image, mapped, base, va, v) ==> !KnownVersion(b, v) then UnsupportedChpeVersion
    else if forall v, m :: !RecordAt(b, image, mapped, base, va, v, m) then BadChpeMetadata
    else Status.Ok
  }

  /** The status of the way to the metadata. */
  ghost predicate MetadataVerdict(b: seq<Byte>, image: Image, mapped: bool, base: nat, directory: nat, status: Status) {
    if forall config, va :: !ConfigAt(b, image, mapped, directory, config, va) then status == BadLoadConfig
    else exists config, va :: ConfigAt(b, image, mapped, directory, config, va) && status == RecordVerdict(b, image, mapped, base, va)
  }

  ghost predicate FieldsSaid(b: seq<Byte>, v: nat, m: nat, c: Chpe) {
    && v + 4 <= |b| && m + 56 <= |b|
    && c == Chpe(U32(b, v), U32(b, m + 4), U32(b, m + 8), U32(b, m + 12), U32(b, m + 16), U32(b, m + 48), U32(b, m + 52))
  }

  ghost predicate MetadataAt(b: seq<Byte>, image: Image, mapped: bool, base: nat, directory: nat, v: nat, m: nat) {
    exists config, va :: ConfigAt(b, image, mapped, directory, config, va) && RecordAt(b, image, mapped, base, va, v, m)
  }

  /** The metadata is found through the load configuration, and refused for the first thing missing on the way. */
  lemma MetadataSays(b: seq<Byte>, image: Image, directory: nat, mapped: bool, loadedBase: nat, base: nat)
    requires SectionsOk(image.sections, image.sizeOfImage) && image.sizeOfImage <= 0xFFFF_FFFF
    requires base == if mapped then loadedBase else image.imageBase
    requires image.byteCount == |b| && directory + 8 <= |b|
    ensures var c := ReadChpe(b, image, directory, mapped, loadedBase);
            && MetadataVerdict(b, image, mapped, base, directory, c.status)
            && (c.status == Status.Ok ==>
                  exists v, m :: MetadataAt(b, image, mapped, base, directory, v, m) && FieldsSaid(b, v, m, c.chpe))
            && (forall v, m :: MetadataAt(b, image, mapped, base, directory, v, m) ==>
                  c.status == Status.Ok && FieldsSaid(b, v, m, c.chpe))
  {
    hide SectionsOk, Located, ParserOffset, Read, ReadU32, U32, U64, RecordAt, VersionAt, KnownVersion, FieldsSaid, RecordVerdict;
    var c := ReadChpe(b, image, directory, mapped, loadedBase);
    ConfigSays(b, image, directory, mapped);
    forall config, va | ConfigAt(b, image, mapped, directory, config, va)
      ensures c.status == RecordVerdict(b, image, mapped, base, va)
      ensures c.status == Status.Ok ==> exists v, m :: RecordAt(b, image, mapped, base, va, v, m) && FieldsSaid(b, v, m, c.chpe)
      ensures forall v, m :: RecordAt(b, image, mapped, base, va, v, m) ==> c.status == Status.Ok && FieldsSaid(b, v, m, c.chpe)
    {
      RecordSays(b, image, directory, mapped, loadedBase, base, config, va);
    }
  }

  lemma ConfigSays(b: seq<Byte>, image: Image, directory: nat, mapped: bool)
    requires SectionsOk(image.sections, image.sizeOfImage) && image.sizeOfImage <= 0xFFFF_FFFF
    requires image.byteCount == |b| && directory + 8 <= |b|
    ensures var rva, size := ReadU32(b, directory), ReadU32(b, directory + 4);
            var config := ParserOffset(image, mapped, rva, 0xD0);
            && (rva == 0 || size < 0xD0 || config.status != Status.Ok || ReadU32(b, config.value) < 0xD0 ==>
                  forall at, va :: !ConfigAt(b, image, mapped, directory, at, va))
            && (rva != 0 && size >= 0xD0 && config.status == Status.Ok && ReadU32(b, config.value) >= 0xD0 ==>
                  ConfigAt(b, image, mapped, directory, config.value, Read(b, config.value + 0xC8, 8)))
  {
    hide SectionsOk, Located, ParserOffset, Read, ReadU32, U32, U64;
    Reads32(b, directory);
    Reads32(b, directory + 4);
    Locating(image, mapped, U32(b, directory), 0xD0);
    var config := ParserOffset(image, mapped, U32(b, directory), 0xD0);
    if config.status == Status.Ok {
      Reads32(b, config.value);
      Reads64(b, config.value + 0xC8);
    }
  }

  lemma RecordSays(b: seq<Byte>, image: Image, directory: nat, mapped: bool, loadedBase: nat, base: nat, config: nat, va: nat)
    requires SectionsOk(image.sections, image.sizeOfImage) && image.sizeOfImage <= 0xFFFF_FFFF
    requires base == if mapped then loadedBase else image.imageBase
    requires ConfigAt(b, image, mapped, directory, config, va)
    ensures var c := ReadChpe(b, image, directory, mapped, loadedBase);
            && c.status == RecordVerdict(b, image, mapped, base, va)
            && (c.status == Status.Ok ==> exists v, m :: RecordAt(b, image, mapped, base, va, v, m) && FieldsSaid(b, v, m, c.chpe))
            && (forall v, m :: RecordAt(b, image, mapped, base, va, v, m) ==> c.status == Status.Ok && FieldsSaid(b, v, m, c.chpe))
  {
    hide SectionsOk, Located, ParserOffset, Read, ReadU32, U32, U64;
    var c := ReadChpe(b, image, directory, mapped, loadedBase);
    Reads32(b, directory);
    Reads32(b, directory + 4);
    Locating(image, mapped, U32(b, directory), 0xD0);
    Reads32(b, config);
    Reads64(b, config + 0xC8);
    if va != 0 && base <= va <= base + 0xFFFF_FFFF {
      Locating(image, mapped, va - base, 4);
      var at := ParserOffset(image, mapped, va - base, 4);
      if at.status == Status.Ok {
        assert VersionAt(b, image, mapped, base, va, at.value);
        Reads32(b, at.value);
        var size := MetadataSize(U32(b, at.value));
        Locating(image, mapped, va - base, size);
        var o := ParserOffset(image, mapped, va - base, size);
        forall v, m | RecordAt(b, image, mapped, base, va, v, m) ensures v == at.value && o == Offset(Status.Ok, m) {
          assert Located(image, mapped, va - base, 4, v);
          assert Located(image, mapped, va - base, size, m);
        }
        if o.status == Status.Ok && KnownVersion(b, at.value) {
          ReadsFields(b, o.value);
          assert RecordAt(b, image, mapped, base, va, at.value, o.value) && FieldsSaid(b, at.value, o.value, c.chpe);
        }
      }
    }
  }

  lemma ReadsFields(b: seq<Byte>, m: nat)
    requires m + 56 <= |b|
    ensures ReadU32(b, m + 4) == U32(b, m + 4) && ReadU32(b, m + 8) == U32(b, m + 8)
    ensures ReadU32(b, m + 12) == U32(b, m + 12) && ReadU32(b, m + 16) == U32(b, m + 16)
    ensures ReadU32(b, m + 48) == U32(b, m + 48) && ReadU32(b, m + 52) == U32(b, m + 52)
  {
    hide ReadU32, U32;
    Reads32(b, m + 4);
    Reads32(b, m + 8);
    Reads32(b, m + 12);
    Reads32(b, m + 16);
    Reads32(b, m + 48);
    Reads32(b, m + 52);
  }

  // ---- Tables ----

  /** An empty table is anywhere. */
  ghost predicate TableAt(place: Image, mapped: bool, rva: nat, count: nat, size: nat, t: nat) {
    count == 0 || (rva != 0 && count * size <= 0xFFFF_FFFF && Located(place, mapped, rva, count * size, t))
  }

  lemma TableSays(place: Image, mapped: bool, rva: nat, count: nat, size: nat)
    requires size > 0
    requires SectionsOk(place.sections, place.sizeOfImage) && place.sizeOfImage <= 0xFFFF_FFFF
    ensures var o := TableOffset(place, mapped, rva, count, size);
            && (o.status == Status.Ok ==> TableAt(place, mapped, rva, count, size, o.value))
            && (forall t :: TableAt(place, mapped, rva, count, size, t) ==> o.status == Status.Ok && (count > 0 ==> o.value == t))
            && TableStatus(o) == (if o.status == Status.Ok then Status.Ok
                                  else if rva != 0 && count * size > 0xFFFF_FFFF then Overflow else BadChpeMetadata)
  {
    hide SectionsOk, Located;
    if count > 0 {
      assert count * size >= size;
      Locating(place, mapped, rva, count * size);
    } else {
      FileOffsetOtherwise(place, rva, 0);
    }
    if rva != 0 && count != 0 && count * size <= 0xFFFF_FFFF {
      NeverOverflows(place, mapped, rva, count * size);
    }
  }

  lemma NeverOverflows(place: Image, mapped: bool, rva: nat, size: nat)
    ensures ParserOffset(place, mapped, rva, size).status != Overflow
  {
  }

  /** The low two bits of the first word are the kind of code, the rest its start. */
  ghost predicate CodeSaid(b: seq<Byte>, at: nat, r: CodeRange) {
    && at + 8 <= |b| && r.start == U32(b, at) / 4 * 4 && r.end == r.start + U32(b, at + 4)
    && r.isa == match U32(b, at) % 4
                case 0 => RvaClass.Arm64
                case 1 => RvaClass.Arm64ec
                case 2 => RvaClass.X64
                case _ => RvaClass.Invalid
  }

  ghost predicate EntrySaid(b: seq<Byte>, at: nat, r: EntryRange) {
    at + 12 <= |b| && r == EntryRange(U32(b, at), U32(b, at + 4), U32(b, at + 8))
  }

  ghost predicate RedirectionSaid(b: seq<Byte>, at: nat, r: Redirection) {
    at + 8 <= |b| && r == Redirection(U32(b, at), U32(b, at + 4))
  }

  lemma CodeSays(b: seq<Byte>, at: nat, r: CodeRange)
    requires at + 8 <= |b|
    ensures CodeSaid(b, at, r) <==> r == RangeOf(CodeRecordAt(b, at))
  {
    hide U32, ReadU32;
    Reads32(b, at);
    Reads32(b, at + 4);
  }

  lemma EntrySays(b: seq<Byte>, at: nat, r: EntryRange)
    requires at + 12 <= |b|
    ensures EntrySaid(b, at, r) <==> r == EntryAt(b, at)
  {
    hide U32, ReadU32;
    Reads32(b, at);
    Reads32(b, at + 4);
    Reads32(b, at + 8);
  }

  lemma RedirectionSays(b: seq<Byte>, at: nat, r: Redirection)
    requires at + 8 <= |b|
    ensures RedirectionSaid(b, at, r) <==> r == RedirectionAt(b, at)
  {
    hide U32, ReadU32;
    Reads32(b, at);
    Reads32(b, at + 4);
  }

  ghost predicate CodeMapSaid(b: seq<Byte>, t: nat, ranges: seq<CodeRange>) {
    forall i :: 0 <= i < |ranges| ==> CodeSaid(b, t + 8 * i, ranges[i])
  }

  ghost predicate EntriesSaid(b: seq<Byte>, t: nat, entries: seq<EntryRange>) {
    forall i :: 0 <= i < |entries| ==> EntrySaid(b, t + 12 * i, entries[i])
  }

  ghost predicate RedirectionsSaid(b: seq<Byte>, t: nat, redirections: seq<Redirection>) {
    forall i :: 0 <= i < |redirections| ==> RedirectionSaid(b, t + 8 * i, redirections[i])
  }

  lemma CodeMapSays(b: seq<Byte>, t: nat, count: nat, ranges: seq<CodeRange>)
    requires (count == 0 || t + 8 * count <= |b|) && |ranges| == count
    ensures CodeMapSaid(b, t, ranges) <==> ranges == RangesOf(RawCodeMap(b, t, count))
  {
    hide CodeSaid, CodeRecordAt;
    var raw := RangesOf(RawCodeMap(b, t, count));
    forall i | 0 <= i < count
      ensures CodeSaid(b, t + 8 * i, raw[i]) && (CodeSaid(b, t + 8 * i, ranges[i]) ==> ranges[i] == raw[i])
    {
      CodeSays(b, t + 8 * i, raw[i]);
      CodeSays(b, t + 8 * i, ranges[i]);
    }
  }

  lemma EntriesSay(b: seq<Byte>, t: nat, count: nat, entries: seq<EntryRange>)
    requires (count == 0 || t + 12 * count <= |b|) && |entries| == count
    ensures EntriesSaid(b, t, entries) <==> entries == RawEntries(b, t, count)
  {
    hide EntrySaid, EntryAt;
    var raw := RawEntries(b, t, count);
    forall i | 0 <= i < count
      ensures EntrySaid(b, t + 12 * i, raw[i]) && (EntrySaid(b, t + 12 * i, entries[i]) ==> entries[i] == raw[i])
    {
      EntrySays(b, t + 12 * i, raw[i]);
      EntrySays(b, t + 12 * i, entries[i]);
    }
  }

  lemma RedirectionsSay(b: seq<Byte>, t: nat, count: nat, redirections: seq<Redirection>)
    requires (count == 0 || t + 8 * count <= |b|) && |redirections| == count
    ensures RedirectionsSaid(b, t, redirections) <==> redirections == RawRedirections(b, t, count)
  {
    hide RedirectionSaid, RedirectionAt;
    var raw := RawRedirections(b, t, count);
    forall i | 0 <= i < count
      ensures RedirectionSaid(b, t + 8 * i, raw[i]) && (RedirectionSaid(b, t + 8 * i, redirections[i]) ==> redirections[i] == raw[i])
    {
      RedirectionSays(b, t + 8 * i, raw[i]);
      RedirectionSays(b, t + 8 * i, redirections[i]);
    }
  }

  /** The three tables stand where the metadata puts them, record behind record. */
  ghost predicate TablesSaid(b: seq<Byte>, place: Image, mapped: bool, c: Chpe, image: Image) {
    && |image.codeRanges| == c.codeMapCount && |image.entryRanges| == c.entryCount && |image.redirections| == c.redirectionCount
    && (exists t :: TableAt(place, mapped, c.codeMapRva, c.codeMapCount, 8, t) && CodeMapSaid(b, t, image.codeRanges))
    && (exists t :: TableAt(place, mapped, c.entriesRva, c.entryCount, 12, t) && EntriesSaid(b, t, image.entryRanges))
    && (exists t :: TableAt(place, mapped, c.redirectionsRva, c.redirectionCount, 8, t) && RedirectionsSaid(b, t, image.redirections))
  }

  ghost function Bare(image: Image): Image {
    image.(codeRanges := [], entryRanges := [], redirections := [])
  }

  lemma TablesSay(b: seq<Byte>, place: Image, mapped: bool, c: Chpe, image: Image)
    requires SectionsOk(place.sections, place.sizeOfImage) && place.sizeOfImage <= 0xFFFF_FFFF && place.byteCount == |b|
    requires place == Bare(image)
    ensures TablesDecoded(b, place, c, mapped, image) <==> TablesSaid(b, place, mapped, c, image)
  {
    hide SectionsOk, Located, CodeMapSaid, EntriesSaid, RedirectionsSaid, TableOffset, RangesOf, RawCodeMap, RawEntries, RawRedirections;
    TableSays(place, mapped, c.codeMapRva, c.codeMapCount, 8);
    TableSays(place, mapped, c.entriesRva, c.entryCount, 12);
    TableSays(place, mapped, c.redirectionsRva, c.redirectionCount, 8);
    var t := TableOffset(place, mapped, c.codeMapRva, c.codeMapCount, 8);
    var e := TableOffset(place, mapped, c.entriesRva, c.entryCount, 12);
    var r := TableOffset(place, mapped, c.redirectionsRva, c.redirectionCount, 8);
    if t.status == Status.Ok && |image.codeRanges| == c.codeMapCount {
      CodeMapSays(b, t.value, c.codeMapCount, image.codeRanges);
    }
    if e.status == Status.Ok && |image.entryRanges| == c.entryCount {
      EntriesSay(b, e.value, c.entryCount, image.entryRanges);
    }
    if r.status == Status.Ok && |image.redirections| == c.redirectionCount {
      RedirectionsSay(b, r.value, c.redirectionCount, image.redirections);
    }
    EmptySaid(b, image);
  }

  /** An empty table says nothing, wherever it is. */
  lemma EmptySaid(b: seq<Byte>, image: Image)
    ensures image.codeRanges == [] ==> forall t :: CodeMapSaid(b, t, image.codeRanges)
    ensures image.entryRanges == [] ==> forall t :: EntriesSaid(b, t, image.entryRanges)
    ensures image.redirections == [] ==> forall t :: RedirectionsSaid(b, t, image.redirections)
  {
  }

  // ---- Images that make sense ----

  ghost predicate Occupies(s: Section, rva: nat) {
    s.virtualAddress <= rva && (rva < s.virtualAddress + s.virtualSize || rva < s.virtualAddress + s.rawSize)
  }

  /** An address in a section whose characteristics have bit 29. */
  ghost predicate InCode(image: Image, rva: nat) {
    exists i :: 0 <= i < |image.sections| && Occupies(image.sections[i], rva)
                && image.sections[i].characteristics / 0x2000_0000 % 2 == 1
  }

  ghost predicate SectionSensible(s: Section, sizeOfImage: nat) {
    && s.virtualSize + s.rawSize > 0
    && s.virtualAddress + s.virtualSize <= sizeOfImage && s.virtualAddress + s.rawSize <= sizeOfImage
  }

  ghost predicate CodeSensible(image: Image, r: CodeRange) {
    && r.start < r.end <= image.sizeOfImage && r.start % 4 == 0 && r.isa in {RvaClass.Arm64, RvaClass.Arm64ec, RvaClass.X64}
    && InCode(image, r.start) && InCode(image, r.end - 1)
  }

  ghost predicate EntrySensible(image: Image, r: EntryRange) {
    && r.start <= r.entry < r.end <= image.sizeOfImage
    && exists i :: 0 <= i < |image.codeRanges| && image.codeRanges[i].isa == RvaClass.X64
                   && image.codeRanges[i].start <= r.start && r.end <= image.codeRanges[i].end
  }

  /** Sections, ranges and redirections inside the image, sorted and apart; code where code may run. */
  ghost predicate Sensible(image: Image) {
    && 0 < image.sizeOfImage <= 0xFFFF_FFFF
    && (forall i :: 0 <= i < |image.sections| ==> SectionSensible(image.sections[i], image.sizeOfImage))
    && (forall i, j :: 0 <= i < j < |image.sections| ==>
          && image.sections[i].virtualAddress + image.sections[i].virtualSize <= image.sections[j].virtualAddress
          && image.sections[i].virtualAddress + image.sections[i].rawSize <= image.sections[j].virtualAddress)
    && (forall i :: 0 <= i < |image.codeRanges| ==> CodeSensible(image, image.codeRanges[i]))
    && (forall i, j :: 0 <= i < j < |image.codeRanges| ==> image.codeRanges[i].end <= image.codeRanges[j].start)
    && (forall i :: 0 <= i < |image.entryRanges| ==> EntrySensible(image, image.entryRanges[i]))
    && (forall i, j :: 0 <= i < j < |image.entryRanges| ==> image.entryRanges[i].end <= image.entryRanges[j].start)
    && (forall i :: 0 <= i < |image.redirections| ==>
          image.redirections[i].source < image.sizeOfImage && image.redirections[i].destination < image.sizeOfImage)
    && (forall i, j :: 0 <= i < j < |image.redirections| ==> image.redirections[i].source < image.redirections[j].source)
  }

  lemma CodeIsExecutable(image: Image, rva: nat)
    requires SectionsOk(image.sections, image.sizeOfImage) && rva < image.sizeOfImage <= 0xFFFF_FFFF
    ensures InExecutable(image.sections, rva) <==> InCode(image, rva)
  {
    var k := SectionOf(image.sections, rva, 1);
    forall i | 0 <= i < |image.sections| && Occupies(image.sections[i], rva) ensures k == Some(i) {
      assert SectionFits(image.sections[i], image.sizeOfImage);
      assert ContainsSpan(image.sections[i], rva, 1);
      OneSection(image.sections, image.sizeOfImage, i, k.value, rva);
    }
    if k.Some? {
      assert Occupies(image.sections[k.value], rva);
    }
  }

  lemma SectionsSensible(image: Image)
    requires image.sizeOfImage <= 0xFFFF_FFFF
    ensures SectionsOk(image.sections, image.sizeOfImage)
       <==> && (forall i :: 0 <= i < |image.sections| ==> SectionSensible(image.sections[i], image.sizeOfImage))
            && (forall i, j :: 0 <= i < j < |image.sections| ==>
                  && image.sections[i].virtualAddress + image.sections[i].virtualSize <= image.sections[j].virtualAddress
                  && image.sections[i].virtualAddress + image.sections[i].rawSize <= image.sections[j].virtualAddress)
  {
    assert forall i :: 0 <= i < |image.sections| ==>
        (SectionFits(image.sections[i], image.sizeOfImage) <==> SectionSensible(image.sections[i], image.sizeOfImage));
  }

  /** What the parser insists on is exactly that the image makes sense. */
  lemma SensibleIsWellFormed(image: Image)
    ensures WellFormed(image) <==> Sensible(image)
  {
    hide SectionsOk, InExecutable, InCode, SectionSensible;
    if 0 < image.sizeOfImage <= 0xFFFF_FFFF {
      SectionsSensible(image);
      if SectionsOk(image.sections, image.sizeOfImage) {
        forall r: CodeRange | r.start < r.end <= image.sizeOfImage
          ensures CodeRangeFits(r, image.sections, image.sizeOfImage) <==> CodeSensible(image, r)
        {
          CodeIsExecutable(image, r.start);
          CodeIsExecutable(image, r.end - 1);
        }
        forall r: EntryRange
          ensures EntryRangeFits(r, image.codeRanges, image.sizeOfImage) <==> EntrySensible(image, r)
        {
        }
      }
    }
  }

  // ---- The whole image ----

  /** The bytes describe the image: headers, sections, and the tables that the metadata leads to. */
  ghost predicate Describes(b: seq<Byte>, base: nat, mapped: bool, options: ParseOptions, image: Image) {
    && HeaderVerdict(b, mapped, options.maxSections) == Status.Ok && HeadersSaid(b, image)
    && exists v, m, c: Chpe ::
         && MetadataAt(b, Bare(image), mapped, base, U32(b, 60) + 216, v, m) && FieldsSaid(b, v, m, c)
         && c.codeMapCount <= options.maxCodeRanges && c.entryCount <= options.maxEntryRanges
         && c.redirectionCount <= options.maxRedirections
         && 12 * c.codeMapCount + 12 * c.entryCount + 8 * c.redirectionCount <= 0x80_0000
         && TablesSaid(b, Bare(image), mapped, c, image)
  }

  /** An image is accepted exactly when the bytes describe it and it makes sense. */
  lemma AcceptedExactly(b: seq<Byte>, loadedBase: nat, base: nat, mapped: bool, options: ParseOptions, image: Image)
    requires base == if mapped then loadedBase else image.imageBase
    ensures Acceptable(b, loadedBase, mapped, options, image)
       <==> && Sensible(image) && Describes(b, base, mapped, options, image)
            && (mapped || forall i :: 0 <= i < |image.sections| && image.sections[i].rawSize != 0 ==>
                            image.sections[i].rawPointer + image.sections[i].rawSize <= if |b| < 0xFFFF_FFFF then |b| else 0xFFFF_FFFF)
  {
    hide SectionsOk, CodeRangesOk, EntryRangesOk, RedirectionsOk, U32, U16, U64, Sensible, Decoded, Describes;
    SensibleIsWellFormed(image);
    if WellFormed(image) {
      DescribedExactly(b, loadedBase, base, mapped, options, image);
    }
  }

  lemma DescribedExactly(b: seq<Byte>, loadedBase: nat, base: nat, mapped: bool, options: ParseOptions, image: Image)
    requires WellFormed(image) && base == if mapped then loadedBase else image.imageBase
    ensures Decoded(b, loadedBase, mapped, options, image) <==> Describes(b, base, mapped, options, image)
  {
    hide SectionsOk, CodeRangesOk, EntryRangesOk, RedirectionsOk, TablesSaid, TablesDecoded, MetadataAt, FieldsSaid, U32, U16, U64,
         HeaderVerdict, ReadHeaders, ReadChpe, MetadataVerdict, RawSections, SectionSaid;
    HeadersSay(b, mapped, options.maxSections);
    var r := ReadHeaders(b, mapped, options.maxSections);
    if r.status == Status.Ok {
      var h := r.headers;
      SectionsSay(b, h.sectionTable, h.sectionCount, image.sections);
      var place := ImageOf(h, |b|, image.sections);
      var same := image.byteCount == |b| && h.imageBase == image.imageBase && h.sizeOfImage == image.sizeOfImage
                  && h.sizeOfHeaders == image.sizeOfHeaders;
      if Decoded(b, loadedBase, mapped, options, image) {
        TablesKeepPlace(b, place, ReadChpe(b, place, h.directory, mapped, loadedBase).chpe, mapped, image);
      }
      if same {
        assert place == Bare(image);
        MetadataSays(b, place, h.directory, mapped, loadedBase, base);
        TablesSay(b, place, mapped, ReadChpe(b, place, h.directory, mapped, loadedBase).chpe, image);
        SameFields(b);
      }
    }
  }

  lemma TablesKeepPlace(b: seq<Byte>, place: Image, c: Chpe, mapped: bool, image: Image)
    requires place.byteCount == |b| && TablesDecoded(b, place, c, mapped, image)
    ensures Bare(image) == Bare(place)
  {
    hide RangesOf, RawCodeMap, RawEntries, RawRedirections;
  }

  /** Two records at the same places are the same. */
  lemma SameFields(b: seq<Byte>)
    ensures forall v, m, c, d :: FieldsSaid(b, v, m, c) && FieldsSaid(b, v, m, d) ==> c == d
  {
  }

  // ---- What an address is ----

  ghost predicate IsSource(image: Image, rva: nat, i: nat) {
    i < |image.redirections| && image.redirections[i].source == rva
  }

  ghost predicate InEntry(image: Image, rva: nat, i: nat) {
    i < |image.entryRanges| && image.entryRanges[i].start <= rva < image.entryRanges[i].end
  }

  ghost predicate InCodeRange(image: Image, rva: nat, i: nat) {
    i < |image.codeRanges| && image.codeRanges[i].start <= rva < image.codeRanges[i].end
  }

  ghost predicate InOccupied(image: Image, rva: nat, i: nat) {
    i < |image.sections| && Occupies(image.sections[i], rva)
  }

  /** What an address is: a redirection first, then part of a thunk, then code, then data. */
  ghost predicate Classes(image: Image, rva: nat, c: RvaClass) {
    if exists i: nat :: IsSource(image, rva, i) then c == FastForward
    else if exists i: nat :: InEntry(image, rva, i) then c == Thunk
    else if exists i: nat :: InCodeRange(image, rva, i) then exists i: nat :: InCodeRange(image, rva, i) && c == image.codeRanges[i].isa
    else if exists i: nat :: InOccupied(image, rva, i) && image.sections[i].characteristics / 0x2000_0000 % 2 == 0 then c == Data
    else c == RvaClass.Invalid
  }

  /** What is said of an address inside the image is what the tables hold of it. */
  lemma ClassifiedMeans(image: Image, rva: nat)
    requires WellFormed(image) && rva < image.sizeOfImage
    ensures var info := Classified(image, rva);
            && Classes(image, rva, info.classification)
            && (forall i: nat :: InCodeRange(image, rva, i) ==>
                  info.codeMapIsa == image.codeRanges[i].isa && info.rangeStart == image.codeRanges[i].start
                  && info.rangeEnd == image.codeRanges[i].end)
            && (forall i: nat :: InEntry(image, rva, i) ==> info.entryPoint == Some(image.entryRanges[i].entry))
            && (forall i: nat :: IsSource(image, rva, i) ==> info.redirection == Some(image.redirections[i].destination))
            && (forall i: nat :: InOccupied(image, rva, i) ==>
                  info.section == Some(i) && info.executable == (image.sections[i].characteristics / 0x2000_0000 % 2 == 1))
            && ((forall i: nat :: !InCodeRange(image, rva, i)) ==> info.codeMapIsa == RvaClass.Invalid)
            && ((forall i: nat :: !InEntry(image, rva, i)) ==> info.entryPoint == None)
            && ((forall i: nat :: !IsSource(image, rva, i)) ==> info.redirection == None)
            && ((forall i: nat :: !InOccupied(image, rva, i)) ==> info.section == None && !info.executable)
  {
    hide CodeRangeFits, EntryRangeFits, SectionOf, CodeRangeOf, EntryRangeOf, RedirectionOf, Occupies;
    FoundSection(image, rva);
    FoundRange(image, rva);
    FoundEntry(image, rva);
    FoundSource(image, rva);
  }

  lemma FoundSection(image: Image, rva: nat)
    requires SectionsOk(image.sections, image.sizeOfImage) && rva < image.sizeOfImage <= 0xFFFF_FFFF
    ensures forall i: nat :: InOccupied(image, rva, i) <==> SectionOf(image.sections, rva, 1) == Some(i)
  {
    var k := SectionOf(image.sections, rva, 1);
    forall i | 0 <= i < |image.sections| && Occupies(image.sections[i], rva) ensures k == Some(i) {
      assert SectionFits(image.sections[i], image.sizeOfImage);
      assert ContainsSpan(image.sections[i], rva, 1);
      OneSection(image.sections, image.sizeOfImage, i, k.value, rva);
    }
  }

  lemma FoundRange(image: Image, rva: nat)
    requires CodeRangesOk(image.codeRanges, image.sections, image.sizeOfImage)
    ensures forall i: nat :: InCodeRange(image, rva, i) <==> CodeRangeOf(image.codeRanges, rva) == Some(i)
  {
    hide CodeRangeFits;
  }

  lemma FoundEntry(image: Image, rva: nat)
    requires EntryRangesOk(image.entryRanges, image.codeRanges, image.sizeOfImage)
    ensures forall i: nat :: InEntry(image, rva, i) <==> EntryRangeOf(image.entryRanges, rva) == Some(i)
  {
    hide EntryRangeFits;
  }

  lemma FoundSource(image: Image, rva: nat)
    requires RedirectionsOk(image.redirections, image.sizeOfImage)
    ensures forall i: nat :: IsSource(image, rva, i) <==> RedirectionOf(image.redirections, rva) == Some(i)
  {
  }
}

/**
 ARM64X metadata of a PE image: the section table, the code map, entry ranges and redirections, parsed
 from untrusted bytes and then searched.
 */
module Arm64xImage {
  import opened Options
  import opened LittleEndian

  const UINT32_MAX := 0xFFFF_FFFF
  const UINT64_MAX := 0xFFFF_FFFF_FFFF_FFFF

  const SECTION_HEADER_SIZE := 40
  const CODE_MAP_RECORD_SIZE := 8
  const ENTRY_RECORD_SIZE := 12
  const REDIRECTION_RECORD_SIZE := 8
  const MEM_EXECUTE := 0x2000_0000

  datatype Status =
    | Ok | InvalidArgument | UnsupportedFormat | Truncated | Overflow | LimitExceeded
    | BadDosHeader | BadPeSignature | BadOptionalHeader | BadSectionTable | BadRva | BadLoadConfig
    | NoChpeMetadata | BadChpeMetadata | UnsupportedChpeVersion | UnsortedRanges | OverlappingRanges

  datatype RvaClass = Invalid | Data | Arm64 | Arm64ec | X64 | Thunk | FastForward

  datatype Section = Section(
    virtualAddress: nat, virtualSize: nat, rawSize: nat, rawPointer: nat, characteristics: nat)

  datatype CodeRange = CodeRange(start: nat, end: nat, isa: RvaClass)

  datatype EntryRange = EntryRange(start: nat, end: nat, entry: nat)

  datatype Redirection = Redirection(source: nat, destination: nat)

  datatype Image = Image(
    sizeOfImage: nat, sizeOfHeaders: nat, byteCount: nat, imageBase: nat,
    sections: seq<Section>, codeRanges: seq<CodeRange>, entryRanges: seq<EntryRange>,
    redirections: seq<Redirection>)

  // ---- Reading ----

  function Read(bytes: seq<Byte>, offset: nat, width: nat): (v: nat)
    requires offset + width <= |bytes|
    ensures v < Capacity(width)
  {
    DecodeBounded(bytes[offset..offset + width]);
    Decode(bytes[offset..offset + width])
  }

  function ReadU32(bytes: seq<Byte>, offset: nat): (v: nat)
    requires offset + 4 <= |bytes|
    ensures v <= UINT32_MAX
  {
    Capacities();
    Read(bytes, offset, 4)
  }

  // ---- Sections ----

  function Extent(s: Section): nat {
    if s.virtualSize > s.rawSize then s.virtualSize else s.rawSize
  }

  /** Bit 29 of the characteristics. */
  predicate Executable(s: Section) {
    s.characteristics / MEM_EXECUTE % 2 == 1
  }

  predicate ContainsSpan(s: Section, rva: nat, size: nat) {
    && rva + size <= UINT32_MAX && s.virtualAddress + Extent(s) <= UINT32_MAX
    && s.virtualAddress <= rva && rva + size <= s.virtualAddress + Extent(s)
  }

  function SectionEnd(s: Section): nat { s.virtualAddress + Extent(s) }

  predicate SectionFits(s: Section, sizeOfImage: nat) {
    Extent(s) > 0 && SectionEnd(s) <= UINT32_MAX && SectionEnd(s) <= sizeOfImage
  }

  predicate SectionsOk(sections: seq<Section>, sizeOfImage: nat) {
    && (forall i :: 0 <= i < |sections| ==> SectionFits(sections[i], sizeOfImage))
    && (forall i, j :: 0 <= i < j < |sections| ==> SectionEnd(sections[i]) <= sections[j].virtualAddress)
  }

  /** The section that holds a span, found by looking at all of them. */
  function SectionOf(sections: seq<Section>, rva: nat, size: nat): (i: Option<nat>)
    ensures i.Some? ==> i.value < |sections| && ContainsSpan(sections[i.value], rva, size)
    ensures forall k :: 0 <= k < (if i.Some? then i.value else |sections|) ==> !ContainsSpan(sections[k], rva, size)
  {
    if sections == [] then None
    else if ContainsSpan(sections[0], rva, size) then Some(0)
    else
      var i := SectionOf(sections[1..], rva, size);
      if i.None? then None else Some(i.value + 1)
  }

  /** Of sections that do not overlap, only one can hold a byte. */
  lemma OneSection(sections: seq<Section>, sizeOfImage: nat, i: nat, j: nat, rva: nat)
    requires SectionsOk(sections, sizeOfImage) && i < |sections| && j < |sections|
    requires ContainsSpan(sections[i], rva, 1) && ContainsSpan(sections[j], rva, 1)
    ensures i == j
  {
  }

  method FindSection(sections: seq<Section>, rva: nat, size: nat) returns (found: Option<nat>)
    ensures found == SectionOf(sections, rva, size)
  {
    for i := 0 to |sections|
      invariant forall k :: 0 <= k < i ==> !ContainsSpan(sections[k], rva, size)
    {
      if ContainsSpan(sections[i], rva, size) {
        return Some(i);
      }
    }
    found := None;
  }

  predicate InExecutable(sections: seq<Section>, rva: nat) {
    var i := SectionOf(sections, rva, 1);
    i.Some? && Executable(sections[i.value])
  }

  // ---- What is true of every accepted image ----

  predicate CodeRangeFits(r: CodeRange, sections: seq<Section>, sizeOfImage: nat) {
    && r.start < r.end <= sizeOfImage && r.start % 4 == 0 && r.isa in {Arm64, Arm64ec, X64}
    && InExecutable(sections, r.start) && InExecutable(sections, r.end - 1)
  }

  predicate CodeRangesOk(ranges: seq<CodeRange>, sections: seq<Section>, sizeOfImage: nat) {
    && (forall i :: 0 <= i < |ranges| ==> CodeRangeFits(ranges[i], sections, sizeOfImage))
    && (forall i, j :: 0 <= i < j < |ranges| ==> ranges[i].end <= ranges[j].start)
  }

  predicate InsideX64(ranges: seq<CodeRange>, start: nat, end: nat) {
    exists i :: 0 <= i < |ranges| && ranges[i].isa == X64 && ranges[i].start <= start && end <= ranges[i].end
  }

  predicate EntryRangeFits(r: EntryRange, ranges: seq<CodeRange>, sizeOfImage: nat) {
    r.start <= r.entry < r.end <= sizeOfImage && InsideX64(ranges, r.start, r.end)
  }

  predicate EntryRangesOk(entries: seq<EntryRange>, ranges: seq<CodeRange>, sizeOfImage: nat) {
    && (forall i :: 0 <= i < |entries| ==> EntryRangeFits(entries[i], ranges, sizeOfImage))
    && (forall i, j :: 0 <= i < j < |entries| ==> entries[i].end <= entries[j].start)
  }

  predicate RedirectionsOk(redirections: seq<Redirection>, sizeOfImage: nat) {
    && (forall i :: 0 <= i < |redirections| ==>
          redirections[i].source < sizeOfImage && redirections[i].destination < sizeOfImage)
    && (forall i, j :: 0 <= i < j < |redirections| ==> redirections[i].source < redirections[j].source)
  }

  predicate WellFormed(image: Image) {
    && 0 < image.sizeOfImage <= UINT32_MAX
    && SectionsOk(image.sections, image.sizeOfImage)
    && CodeRangesOk(image.codeRanges, image.sections, image.sizeOfImage)
    && EntryRangesOk(image.entryRanges, image.codeRanges, image.sizeOfImage)
    && RedirectionsOk(image.redirections, image.sizeOfImage)
  }

  // ---- Searching with early exit ----

  /** The search of the code map stops at the first range beyond the address, and still misses nothing. */
  method FindCodeRange(ranges: seq<CodeRange>, rva: nat) returns (found: Option<nat>)
    requires forall i, j :: 0 <= i < j < |ranges| ==> ranges[i].end <= ranges[j].start
    requires forall i :: 0 <= i < |ranges| ==> ranges[i].start < ranges[i].end
    ensures found.Some? ==> found.value < |ranges| && ranges[found.value].start <= rva < ranges[found.value].end
    ensures found.None? ==> forall i :: 0 <= i < |ranges| ==> !(ranges[i].start <= rva < ranges[i].end)
  {
    for i := 0 to |ranges|
      invariant forall k :: 0 <= k < i ==> ranges[k].end <= rva
    {
      if rva < ranges[i].start {
        return None;
      }
      if rva < ranges[i].end {
        return Some(i);
      }
    }
    found := None;
  }

  method FindEntryRange(entries: seq<EntryRange>, rva: nat) returns (found: Option<nat>)
    requires forall i, j :: 0 <= i < j < |entries| ==> entries[i].end <= entries[j].start
    requires forall i :: 0 <= i < |entries| ==> entries[i].start < entries[i].end
    ensures found.Some? ==> found.value < |entries| && entries[found.value].start <= rva < entries[found.value].end
    ensures found.None? ==> forall i :: 0 <= i < |entries| ==> !(entries[i].start <= rva < entries[i].end)
  {
    for i := 0 to |entries|
      invariant forall k :: 0 <= k < i ==> entries[k].end <= rva
    {
      if rva < entries[i].start {
        return None;
      }
      if rva < entries[i].end {
        return Some(i);
      }
    }
    found := None;
  }

  method FindRedirection(redirections: seq<Redirection>, rva: nat) returns (found: Option<nat>)
    requires forall i, j :: 0 <= i < j < |redirections| ==> redirections[i].source < redirections[j].source
    ensures found == RedirectionOf(redirections, rva)
  {
    for i := 0 to |redirections|
      invariant forall k :: 0 <= k < i ==> redirections[k].source < rva
    {
      if rva < redirections[i].source {
        return None;
      }
      if rva == redirections[i].source {
        return Some(i);
      }
    }
    found := None;
  }

  // ---- The same by looking at everything ----

  function CodeRangeOf(ranges: seq<CodeRange>, rva: nat): (i: Option<nat>)
    ensures i.Some? ==> i.value < |ranges| && ranges[i.value].start <= rva < ranges[i.value].end
    ensures i.None? ==> forall k :: 0 <= k < |ranges| ==> !(ranges[k].start <= rva < ranges[k].end)
  {
    if ranges == [] then None
    else if ranges[0].start <= rva < ranges[0].end then Some(0)
    else
      var i := CodeRangeOf(ranges[1..], rva);
      if i.None? then None else Some(i.value + 1)
  }

  function EntryRangeOf(entries: seq<EntryRange>, rva: nat): (i: Option<nat>)
    ensures i.Some? ==> i.value < |entries| && entries[i.value].start <= rva < entries[i.value].end
    ensures i.None? ==> forall k :: 0 <= k < |entries| ==> !(entries[k].start <= rva < entries[k].end)
  {
    if entries == [] then None
    else if entries[0].start <= rva < entries[0].end then Some(0)
    else
      var i := EntryRangeOf(entries[1..], rva);
      if i.None? then None else Some(i.value + 1)
  }

  function RedirectionOf(redirections: seq<Redirection>, rva: nat): (i: Option<nat>)
    ensures i.Some? ==> i.value < |redirections| && redirections[i.value].source == rva
    ensures forall k :: 0 <= k < (if i.Some? then i.value else |redirections|) ==> redirections[k].source != rva
  {
    if redirections == [] then None
    else if redirections[0].source == rva then Some(0)
    else
      var i := RedirectionOf(redirections[1..], rva);
      if i.None? then None else Some(i.value + 1)
  }

  // ---- Classification ----

  datatype Info = Info(
    classification: RvaClass, codeMapIsa: RvaClass, section: Option<nat>, executable: bool,
    rangeStart: nat, rangeEnd: nat, entryPoint: Option<nat>, redirection: Option<nat>)

  /** What is said of an address, by looking at all of every table. */
  function Classified(image: Image, rva: nat): Info {
    if rva >= image.sizeOfImage then Info(Invalid, Invalid, None, false, 0, 0, None, None)
    else
      var s := SectionOf(image.sections, rva, 1);
      var c := CodeRangeOf(image.codeRanges, rva);
      var e := EntryRangeOf(image.entryRanges, rva);
      var r := RedirectionOf(image.redirections, rva);
      Info(
        if r.Some? then FastForward
        else if e.Some? then Thunk
        else if c.Some? then image.codeRanges[c.value].isa
        else if s.Some? && !Executable(image.sections[s.value]) then Data
        else Invalid,
        if c.Some? then image.codeRanges[c.value].isa else Invalid,
        s, s.Some? && Executable(image.sections[s.value]),
        if c.Some? then image.codeRanges[c.value].start else if e.Some? then image.entryRanges[e.value].start else 0,
        if c.Some? then image.codeRanges[c.value].end else if e.Some? then image.entryRanges[e.value].end else 0,
        if e.Some? then Some(image.entryRanges[e.value].entry) else None,
        if r.Some? then Some(image.redirections[r.value].destination) else None)
  }

  /** Of ranges that do not overlap, only one holds an address: early exit and full search find the same. */
  lemma SameCodeRange(image: Image, rva: nat, i: nat)
    requires WellFormed(image) && i < |image.codeRanges|
    requires image.codeRanges[i].start <= rva < image.codeRanges[i].end
    ensures CodeRangeOf(image.codeRanges, rva) == Some(i)
  {
  }

  lemma SameEntryRange(image: Image, rva: nat, i: nat)
    requires WellFormed(image) && i < |image.entryRanges|
    requires image.entryRanges[i].start <= rva < image.entryRanges[i].end
    ensures EntryRangeOf(image.entryRanges, rva) == Some(i)
  {
  }

  /** The tables are sorted as the searches need them. */
  lemma Searchable(image: Image)
    requires WellFormed(image)
    ensures forall i, j :: 0 <= i < j < |image.codeRanges| ==> image.codeRanges[i].end <= image.codeRanges[j].start
    ensures forall i :: 0 <= i < |image.codeRanges| ==> image.codeRanges[i].start < image.codeRanges[i].end
    ensures forall i, j :: 0 <= i < j < |image.entryRanges| ==> image.entryRanges[i].end <= image.entryRanges[j].start
    ensures forall i :: 0 <= i < |image.entryRanges| ==> image.entryRanges[i].start < image.entryRanges[i].end
    ensures forall i, j :: 0 <= i < j < |image.redirections| ==> image.redirections[i].source < image.redirections[j].source
  {
  }

  /** `gem_pe_arm64x_classify_rva`, with the early-exit searches, says what a full search would say. */
  method Classify(image: Image, rva: nat) returns (info: Info)
    requires WellFormed(image)
    ensures info == Classified(image, rva)
  {
    hide WellFormed, SectionOf, CodeRangeOf, EntryRangeOf, RedirectionOf;
    Searchable(image);
    info := Info(Invalid, Invalid, None, false, 0, 0, None, None);
    if rva >= image.sizeOfImage {
      return;
    }
    var s := FindSection(image.sections, rva, 1);
    if s.Some? {
      info := info.(section := s, executable := Executable(image.sections[s.value]));
    }
    var c := FindCodeRange(image.codeRanges, rva);
    if c.Some? {
      SameCodeRange(image, rva, c.value);
      var range := image.codeRanges[c.value];
      info := info.(codeMapIsa := range.isa, rangeStart := range.start, rangeEnd := range.end);
    }
    var e := FindEntryRange(image.entryRanges, rva);
    if e.Some? {
      SameEntryRange(image, rva, e.value);
      var range := image.entryRanges[e.value];
      info := info.(entryPoint := Some(range.entry));
      if c.None? {
        info := info.(rangeStart := range.start, rangeEnd := range.end);
      }
    }
    var r := FindRedirection(image.redirections, rva);
    if r.Some? {
      info := info.(redirection := Some(image.redirections[r.value].destination), classification := FastForward);
      return;
    }
    if e.Some? {
      info := info.(classification := Thunk);
      return;
    }
    if c.Some? {
      info := info.(classification := image.codeRanges[c.value].isa);
      return;
    }
    if s.Some? && !Executable(image.sections[s.value]) {
      info := info.(classification := Data);
    }
  }

  /** An entry-range address always lies in an x64 code range. */
  lemma ThunkIsX64(image: Image, rva: nat)
    requires WellFormed(image) && EntryRangeOf(image.entryRanges, rva).Some? && rva < image.sizeOfImage
    ensures Classified(image, rva).codeMapIsa == X64
  {
    hide InExecutable, SectionsOk, RedirectionsOk, SectionOf, RedirectionOf, CodeRangesOk;
    var e := image.entryRanges[EntryRangeOf(image.entryRanges, rva).value];
    assert EntryRangeFits(e, image.codeRanges, image.sizeOfImage);
    var i :| 0 <= i < |image.codeRanges| && image.codeRanges[i].isa == X64
             && image.codeRanges[i].start <= e.start && e.end <= image.codeRanges[i].end;
    SameCodeRange(image, rva, i);
  }

  // ---- Offsets ----

  datatype Offset = Offset(status: Status, value: nat)

  function FileOffset(image: Image, rva: nat, size: nat): (o: Offset)
    ensures o.status == Ok ==> o.value + size <= image.byteCount
  {
    if size == 0 then Offset(InvalidArgument, 0)
    else if rva + size > UINT32_MAX || rva + size > image.sizeOfImage then Offset(BadRva, 0)
    else if rva < image.sizeOfHeaders && InHeaders(image, rva, size) then Offset(Ok, rva)
    else
      var i := SectionOf(image.sections, rva, size);
      if i.None? then Offset(BadRva, 0)
      else
        var s := image.sections[i.value];
        var inside := rva - s.virtualAddress;
        if inside + size > UINT32_MAX || inside + size > s.rawSize then Offset(BadRva, 0)
        else if s.rawPointer + inside + size > image.byteCount then Offset(BadRva, 0)
        else Offset(Ok, s.rawPointer + inside)
  }

  /** A span that is found in the headers, at its own address. */
  predicate InHeaders(image: Image, rva: nat, size: nat) {
    rva + size <= image.sizeOfHeaders && rva + size <= image.byteCount
  }

  /** The file holds the bytes of a span that lies in the section. */
  predicate HoldsRaw(s: Section, rva: nat, size: nat, byteCount: nat) {
    && s.virtualAddress <= rva && rva + size <= s.virtualAddress + s.rawSize
    && s.rawPointer + (rva - s.virtualAddress) + size <= byteCount
  }

  /** A span is found exactly when the headers or any one section hold it, and it is found where they hold it. */
  lemma OffsetFound(image: Image, rva: nat, size: nat)
    requires WellFormed(image)
    ensures FileOffset(image, rva, size).status == Ok
       <==> && size > 0 && rva + size <= image.sizeOfImage
            && (|| InHeaders(image, rva, size)
                || exists i :: 0 <= i < |image.sections| && HoldsRaw(image.sections[i], rva, size, image.byteCount))
    ensures FileOffset(image, rva, size).status == Ok && InHeaders(image, rva, size) ==> FileOffset(image, rva, size).value == rva
    ensures FileOffset(image, rva, size).status != Ok ==>
              FileOffset(image, rva, size) == Offset(if size == 0 then InvalidArgument else BadRva, 0)
    ensures forall i :: 0 <= i < |image.sections| && HoldsRaw(image.sections[i], rva, size, image.byteCount)
                        && FileOffset(image, rva, size).status == Ok && !InHeaders(image, rva, size) ==>
              FileOffset(image, rva, size).value == image.sections[i].rawPointer + rva - image.sections[i].virtualAddress
  {
    hide CodeRangesOk, EntryRangesOk, RedirectionsOk, FileOffset, SectionOf;
    if size > 0 && rva + size <= image.sizeOfImage && !InHeaders(image, rva, size) {
      forall i | 0 <= i < |image.sections| && HoldsRaw(image.sections[i], rva, size, image.byteCount)
        ensures SectionOf(image.sections, rva, size) == Some(i)
      {
        HeldInOne(image, rva, size, i);
      }
      FileOffsetInSection(image, rva, size);
    } else {
      FileOffsetOtherwise(image, rva, size);
    }
  }

  lemma HeldInOne(image: Image, rva: nat, size: nat, i: nat)
    requires WellFormed(image) && size > 0 && rva + size <= image.sizeOfImage
    requires i < |image.sections| && HoldsRaw(image.sections[i], rva, size, image.byteCount)
    ensures SectionOf(image.sections, rva, size) == Some(i)
  {
    hide CodeRangesOk, EntryRangesOk, RedirectionsOk;
    assert SectionFits(image.sections[i], image.sizeOfImage);
    assert ContainsSpan(image.sections[i], rva, size);
    var j := SectionOf(image.sections, rva, size).value;
    OneSection(image.sections, image.sizeOfImage, i, j, rva);
  }

  lemma FileOffsetInSection(image: Image, rva: nat, size: nat)
    requires size > 0 && rva + size <= image.sizeOfImage <= UINT32_MAX && !InHeaders(image, rva, size)
    ensures var o, i := FileOffset(image, rva, size), SectionOf(image.sections, rva, size);
            && (o.status == Ok <==> i.Some? && HoldsRaw(image.sections[i.value], rva, size, image.byteCount))
            && (o.status == Ok ==> o.value == image.sections[i.value].rawPointer + rva - image.sections[i.value].virtualAddress)
            && (o.status != Ok ==> o == Offset(BadRva, 0))
  {
  }

  lemma FileOffsetOtherwise(image: Image, rva: nat, size: nat)
    requires image.sizeOfImage <= UINT32_MAX
    requires size == 0 || rva + size > image.sizeOfImage || InHeaders(image, rva, size)
    ensures FileOffset(image, rva, size)
         == if size == 0 then Offset(InvalidArgument, 0)
            else if rva + size > image.sizeOfImage then Offset(BadRva, 0) else Offset(Ok, rva)
  {
  }

  /** Of an accepted image, the section of a span is the section of each of its bytes. */
  lemma SpanSection(image: Image, rva: nat, size: nat, k: nat)
    requires WellFormed(image) && k < size && SectionOf(image.sections, rva, size).Some?
    ensures SectionOf(image.sections, rva + k, 1) == SectionOf(image.sections, rva, size)
  {
    hide CodeRangesOk, EntryRangesOk, RedirectionsOk;
    var i := SectionOf(image.sections, rva, size).value;
    assert ContainsSpan(image.sections[i], rva + k, 1);
    OneSection(image.sections, image.sizeOfImage, i, SectionOf(image.sections, rva + k, 1).value, rva + k);
  }

  /**
   When the bytes of a span, asked for one by one, are found where the span is found.  A span that runs out of
   the headers is found in a section, while its bytes inside the headers are found in the headers.
   */
  lemma OffsetsFollow(image: Image, rva: nat, size: nat, k: nat)
    requires WellFormed(image) && k < size && FileOffset(image, rva, size).status == Ok
    ensures FileOffset(image, rva + k, 1) == Offset(Ok, FileOffset(image, rva, size).value + k)
       <==> || InHeaders(image, rva, size) || !InHeaders(image, rva + k, 1)
            || var s := image.sections[SectionOf(image.sections, rva, size).value]; s.rawPointer == s.virtualAddress
  {
    hide WellFormed, SectionOf;
    if !InHeaders(image, rva, size) {
      SpanSection(image, rva, size, k);
    }
  }

  /** An image in which they are not: 512 bytes of headers, and a section that begins inside them. */
  lemma OffsetsPart() returns (image: Image)
    ensures WellFormed(image) && RawInFile(image.sections, image.byteCount)
    ensures FileOffset(image, 0x1F0, 32) == Offset(Ok, 0x400)
    ensures FileOffset(image, 0x1F0, 1) == Offset(Ok, 0x1F0)
  {
    var section := Section(0x1F0, 0x200, 0x200, 0x400, 0);
    image := Image(0x1000, 0x200, 0x600, 0x1_4000_0000, [section], [], [], []);
    assert SectionFits(section, 0x1000);
    assert ContainsSpan(section, 0x1F0, 32);
  }

  /** Where the parser finds a span: in the file, or at its address when the image is mapped. */
  function ParserOffset(image: Image, mapped: bool, rva: nat, size: nat): (o: Offset)
    ensures o.status == Ok ==> o.value + size <= image.byteCount
  {
    if !mapped then FileOffset(image, rva, size)
    else if size == 0 || rva + size > UINT32_MAX || rva + size > image.sizeOfImage || rva + size > image.byteCount
    then Offset(BadRva, 0)
    else Offset(Ok, rva)
  }

  function TableOffset(image: Image, mapped: bool, rva: nat, count: nat, recordSize: nat): (o: Offset)
    ensures o.status == Ok ==> o.value + count * recordSize <= image.byteCount || count == 0
  {
    if count == 0 then Offset(Ok, 0)
    else if rva == 0 then Offset(BadChpeMetadata, 0)
    else if count * recordSize > UINT32_MAX then Offset(Overflow, 0)
    else ParserOffset(image, mapped, rva, count * recordSize)
  }

  /** A table that cannot be located is malformed metadata, unless its size does not even fit a word. */
  function TableStatus(o: Offset): Status {
    if o.status == Ok then Ok else if o.status == Overflow then Overflow else BadChpeMetadata
  }

  // ---- The section table ----

  function SectionAt(bytes: seq<Byte>, offset: nat): Section
    requires offset + SECTION_HEADER_SIZE <= |bytes|
  {
    Section(ReadU32(bytes, offset + 12), ReadU32(bytes, offset + 8), ReadU32(bytes, offset + 16),
            ReadU32(bytes, offset + 20), ReadU32(bytes, offset + 36))
  }

  /** What is wrong with the i-th of a list of sections, given the one before. */
  ghost function SectionError(sections: seq<Section>, i: nat, sizeOfImage: nat, byteCount: nat, mapped: bool): Status
    requires i < |sections|
  {
    var s := sections[i];
    if !SectionFits(s, sizeOfImage) then BadSectionTable
    else if i > 0 && s.virtualAddress < sections[i - 1].virtualAddress then UnsortedRanges
    else if i > 0 && s.virtualAddress < SectionEnd(sections[i - 1]) then OverlappingRanges
    else if !mapped && s.rawSize != 0 && (s.rawPointer + s.rawSize > UINT32_MAX || s.rawPointer + s.rawSize > byteCount)
    then BadSectionTable
    else Ok
  }

  /** All sections of the table, good or bad. */
  function RawSections(bytes: seq<Byte>, offset: nat, count: nat): (sections: seq<Section>)
    requires offset + count * SECTION_HEADER_SIZE <= |bytes|
    ensures |sections| == count
  {
    seq(count, i requires 0 <= i < count => SectionAt(bytes, offset + i * SECTION_HEADER_SIZE))
  }

  lemma {:induction false} SectionsApart(sections: seq<Section>, sizeOfImage: nat, byteCount: nat, mapped: bool, i: nat, j: nat)
    requires forall k :: 0 <= k < |sections| ==> SectionError(sections, k, sizeOfImage, byteCount, mapped) == Ok
    requires i < j < |sections|
    ensures SectionEnd(sections[i]) <= sections[j].virtualAddress
    decreases j
  {
    assert SectionError(sections, j, sizeOfImage, byteCount, mapped) == Ok;
    if i < j - 1 {
      SectionsApart(sections, sizeOfImage, byteCount, mapped, i, j - 1);
    }
  }

  /** The pairwise checks of neighbours make the whole table sorted and disjoint. */
  lemma CheckedSections(sections: seq<Section>, sizeOfImage: nat, byteCount: nat, mapped: bool)
    requires forall k :: 0 <= k < |sections| ==> SectionError(sections, k, sizeOfImage, byteCount, mapped) == Ok
    ensures SectionsOk(sections, sizeOfImage)
  {
    forall i | 0 <= i < |sections| ensures SectionFits(sections[i], sizeOfImage) {
      assert SectionError(sections, i, sizeOfImage, byteCount, mapped) == Ok;
    }
    forall i, j | 0 <= i < j < |sections| ensures SectionEnd(sections[i]) <= sections[j].virtualAddress {
      SectionsApart(sections, sizeOfImage, byteCount, mapped, i, j);
    }
  }

  /** The section loop of `parse_headers`: the first bad section decides, and an accepted table has none. */
  method ParseSections(bytes: seq<Byte>, offset: nat, count: nat, sizeOfImage: nat, mapped: bool)
    returns (status: Status, sections: seq<Section>)
    requires offset + count * SECTION_HEADER_SIZE <= |bytes|
    ensures var raw := RawSections(bytes, offset, count);
            && (status == Ok <==> forall i :: 0 <= i < count ==> SectionError(raw, i, sizeOfImage, |bytes|, mapped) == Ok)
            && (status == Ok ==> sections == raw && SectionsOk(sections, sizeOfImage))
            && (status != Ok ==> exists i :: 0 <= i < count && SectionError(raw, i, sizeOfImage, |bytes|, mapped) == status
                                   && forall k :: 0 <= k < i ==> SectionError(raw, k, sizeOfImage, |bytes|, mapped) == Ok)
  {
    hide SectionFits, SectionAt, SectionsOk;
    ghost var raw := RawSections(bytes, offset, count);
    sections := [];
    for i := 0 to count
      invariant sections == raw[..i]
      invariant forall k :: 0 <= k < i ==> SectionError(raw, k, sizeOfImage, |bytes|, mapped) == Ok
    {
      RecordFits(count, SECTION_HEADER_SIZE, i);
      var section := SectionAt(bytes, offset + i * SECTION_HEADER_SIZE);
      assert section == raw[i];
      ghost var error := SectionError(raw, i, sizeOfImage, |bytes|, mapped);
      if !SectionFits(section, sizeOfImage) {
        return BadSectionTable, sections;
      }
      if i > 0 {
        assert sections[i - 1] == raw[i - 1];
        if section.virtualAddress < sections[i - 1].virtualAddress {
          return UnsortedRanges, sections;
        }
        if section.virtualAddress < SectionEnd(sections[i - 1]) {
          return OverlappingRanges, sections;
        }
      }
      if !mapped && section.rawSize != 0 {
        if section.rawPointer + section.rawSize > UINT32_MAX || section.rawPointer + section.rawSize > |bytes| {
          return BadSectionTable, sections;
        }
      }
      sections := sections + [section];
    }
    CheckedSections(raw, sizeOfImage, |bytes|, mapped);
    status := Ok;
  }

  lemma RecordFits(count: nat, size: nat, i: nat)
    requires i < count
    ensures i * size + size <= count * size
  {
    assert (i + 1) * size <= count * size;
  }

  // ---- The code map ----

  function IsaOf(kind: nat): RvaClass {
    if kind == 0 then Arm64 else if kind == 1 then Arm64ec else if kind == 2 then X64 else Invalid
  }

  /** A code-map record: the low two bits of its first word are the kind, the rest the start. */
  datatype CodeRecord = CodeRecord(start: nat, length: nat, kind: nat)

  function CodeRecordAt(bytes: seq<Byte>, offset: nat): CodeRecord
    requires offset + CODE_MAP_RECORD_SIZE <= |bytes|
  {
    var word := ReadU32(bytes, offset);
    CodeRecord(word - word % 4, ReadU32(bytes, offset + 4), word % 4)
  }

  function RawCodeMap(bytes: seq<Byte>, offset: nat, count: nat): (records: seq<CodeRecord>)
    requires count == 0 || offset + count * CODE_MAP_RECORD_SIZE <= |bytes|
    ensures |records| == count
  {
    seq(count, i requires 0 <= i < count =>
      RecordFits(count, CODE_MAP_RECORD_SIZE, i);
      CodeRecordAt(bytes, offset + i * CODE_MAP_RECORD_SIZE))
  }

  function RangeOf(r: CodeRecord): CodeRange {
    CodeRange(r.start, r.start + r.length, IsaOf(r.kind))
  }

  lemma CodeRecordsPlain(bytes: seq<Byte>, offset: nat, count: nat)
    requires count == 0 || offset + count * CODE_MAP_RECORD_SIZE <= |bytes|
    ensures var raw := RawCodeMap(bytes, offset, count);
            forall i :: 0 <= i < count ==> raw[i].start % 4 == 0 && raw[i].kind < 4
  {
  }

  ghost function CodeRecordError(records: seq<CodeRecord>, i: nat, sections: seq<Section>, sizeOfImage: nat): Status
    requires i < |records|
  {
    var r := records[i];
    if r.length == 0 || r.kind == 3 then BadChpeMetadata
    else if r.start + r.length > UINT32_MAX || r.start + r.length > sizeOfImage then BadChpeMetadata
    else if i > 0 && r.start < records[i - 1].start then UnsortedRanges
    else if i > 0 && r.start < records[i - 1].start + records[i - 1].length then OverlappingRanges
    else if !InExecutable(sections, r.start) || !InExecutable(sections, r.start + r.length - 1) then BadChpeMetadata
    else Ok
  }

  lemma {:induction false} CodeRangesApart(records: seq<CodeRecord>, sections: seq<Section>, sizeOfImage: nat, i: nat, j: nat)
    requires forall k :: 0 <= k < |records| ==> CodeRecordError(records, k, sections, sizeOfImage) == Ok
    requires i < j < |records|
    ensures RangeOf(records[i]).end <= RangeOf(records[j]).start
    decreases j
  {
    hide InExecutable;
    assert CodeRecordError(records, j, sections, sizeOfImage) == Ok;
    if i < j - 1 {
      CodeRangesApart(records, sections, sizeOfImage, i, j - 1);
      assert CodeRecordError(records, j - 1, sections, sizeOfImage) == Ok;
    }
  }

  function RangesOf(records: seq<CodeRecord>): (ranges: seq<CodeRange>)
    ensures |ranges| == |records|
  {
    seq(|records|, i requires 0 <= i < |records| => RangeOf(records[i]))
  }

  lemma CheckedCodeMap(records: seq<CodeRecord>, sections: seq<Section>, sizeOfImage: nat)
    requires forall k :: 0 <= k < |records| ==> CodeRecordError(records, k, sections, sizeOfImage) == Ok
    requires forall k :: 0 <= k < |records| ==> records[k].start % 4 == 0 && records[k].kind < 4
    ensures CodeRangesOk(RangesOf(records), sections, sizeOfImage)
  {
    hide InExecutable;
    var ranges := RangesOf(records);
    forall i | 0 <= i < |ranges| ensures CodeRangeFits(ranges[i], sections, sizeOfImage) {
      assert CodeRecordError(records, i, sections, sizeOfImage) == Ok;
    }
    forall i, j | 0 <= i < j < |ranges| ensures ranges[i].end <= ranges[j].start {
      CodeRangesApart(records, sections, sizeOfImage, i, j);
    }
  }

  /** The checks on one code-map record, given the range before. */
  method CheckCodeRecord(
    ghost records: seq<CodeRecord>, ranges: seq<CodeRange>, i: nat, r: CodeRecord, sections: seq<Section>, sizeOfImage: nat)
    returns (status: Status)
    requires i < |records| && r == records[i] && |ranges| == i && (i > 0 ==> ranges[i - 1] == RangeOf(records[i - 1]))
    ensures status == CodeRecordError(records, i, sections, sizeOfImage)
  {
    hide InExecutable, IsaOf;
    if r.length == 0 || r.kind == 3 {
      return BadChpeMetadata;
    }
    var end := r.start + r.length;
    if end > UINT32_MAX || end > sizeOfImage {
      return BadChpeMetadata;
    }
    if i > 0 {
      if r.start < ranges[i - 1].start {
        return UnsortedRanges;
      }
      if r.start < ranges[i - 1].end {
        return OverlappingRanges;
      }
    }
    if !InExecutable(sections, r.start) || !InExecutable(sections, end - 1) {
      return BadChpeMetadata;
    }
    status := Ok;
  }

  /** `parse_code_map`, once the table has been located. */
  method ParseCodeMap(bytes: seq<Byte>, offset: nat, count: nat, sections: seq<Section>, sizeOfImage: nat)
    returns (status: Status, ranges: seq<CodeRange>)
    requires count == 0 || offset + count * CODE_MAP_RECORD_SIZE <= |bytes|
    ensures var raw := RawCodeMap(bytes, offset, count);
            && (status == Ok <==> forall i :: 0 <= i < count ==> CodeRecordError(raw, i, sections, sizeOfImage) == Ok)
            && (status == Ok ==> ranges == RangesOf(raw) && CodeRangesOk(ranges, sections, sizeOfImage))
            && (status != Ok ==> exists i :: 0 <= i < count && CodeRecordError(raw, i, sections, sizeOfImage) == status
                                   && forall k :: 0 <= k < i ==> CodeRecordError(raw, k, sections, sizeOfImage) == Ok)
  {
    hide InExecutable, CodeRangesOk, CodeRecordAt, IsaOf, CodeRecordError;
    CodeRecordsPlain(bytes, offset, count);
    ghost var raw := RawCodeMap(bytes, offset, count);
    ranges := [];
    for i := 0 to count
      invariant ranges == RangesOf(raw)[..i]
      invariant forall k :: 0 <= k < i ==> CodeRecordError(raw, k, sections, sizeOfImage) == Ok
    {
      RecordFits(count, CODE_MAP_RECORD_SIZE, i);
      var r := CodeRecordAt(bytes, offset + i * CODE_MAP_RECORD_SIZE);
      assert r == raw[i];
      status := CheckCodeRecord(raw, ranges, i, r, sections, sizeOfImage);
      if status != Ok {
        return;
      }
      ranges := ranges + [CodeRange(r.start, r.start + r.length, IsaOf(r.kind))];
    }
    CheckedCodeMap(raw, sections, sizeOfImage);
    status := Ok;
  }

  // ---- Entry ranges ----

  function EntryAt(bytes: seq<Byte>, offset: nat): EntryRange
    requires offset + ENTRY_RECORD_SIZE <= |bytes|
  {
    EntryRange(ReadU32(bytes, offset), ReadU32(bytes, offset + 4), ReadU32(bytes, offset + 8))
  }

  function RawEntries(bytes: seq<Byte>, offset: nat, count: nat): (entries: seq<EntryRange>)
    requires count == 0 || offset + count * ENTRY_RECORD_SIZE <= |bytes|
    ensures |entries| == count
  {
    seq(count, i requires 0 <= i < count =>
      RecordFits(count, ENTRY_RECORD_SIZE, i);
      EntryAt(bytes, offset + i * ENTRY_RECORD_SIZE))
  }

  ghost function EntryError(entries: seq<EntryRange>, i: nat, ranges: seq<CodeRange>, sizeOfImage: nat): Status
    requires i < |entries|
  {
    var r := entries[i];
    if r.start >= r.end || r.end > sizeOfImage || r.entry < r.start || r.entry >= r.end then BadChpeMetadata
    else if i > 0 && r.start < entries[i - 1].start then UnsortedRanges
    else if i > 0 && r.start < entries[i - 1].end then OverlappingRanges
    else if !InsideX64(ranges, r.start, r.end) then BadChpeMetadata
    else Ok
  }

  lemma {:induction false} EntriesApart(entries: seq<EntryRange>, ranges: seq<CodeRange>, sizeOfImage: nat, i: nat, j: nat)
    requires forall k :: 0 <= k < |entries| ==> EntryError(entries, k, ranges, sizeOfImage) == Ok
    requires i < j < |entries|
    ensures entries[i].end <= entries[j].start
    decreases j
  {
    hide InsideX64;
    assert EntryError(entries, j, ranges, sizeOfImage) == Ok;
    if i < j - 1 {
      EntriesApart(entries, ranges, sizeOfImage, i, j - 1);
      assert EntryError(entries, j - 1, ranges, sizeOfImage) == Ok;
    }
  }

  lemma CheckedEntries(entries: seq<EntryRange>, ranges: seq<CodeRange>, sizeOfImage: nat)
    requires forall k :: 0 <= k < |entries| ==> EntryError(entries, k, ranges, sizeOfImage) == Ok
    ensures EntryRangesOk(entries, ranges, sizeOfImage)
  {
    hide InsideX64;
    forall i | 0 <= i < |entries| ensures EntryRangeFits(entries[i], ranges, sizeOfImage) {
      assert EntryError(entries, i, ranges, sizeOfImage) == Ok;
    }
    forall i, j | 0 <= i < j < |entries| ensures entries[i].end <= entries[j].start {
      EntriesApart(entries, ranges, sizeOfImage, i, j);
    }
  }

  /** The code range that holds a start decides whether the whole range lies in x64 code. */
  method ContainsClass(ranges: seq<CodeRange>, sections: seq<Section>, sizeOfImage: nat, start: nat, end: nat) returns (inside: bool)
    requires CodeRangesOk(ranges, sections, sizeOfImage) && start < end
    ensures inside <==> InsideX64(ranges, start, end)
  {
    hide InExecutable;
    var i := FindCodeRange(ranges, start);
    inside := i.Some? && ranges[i.value].isa == X64 && end <= ranges[i.value].end;
    forall j | 0 <= j < |ranges| && ranges[j].isa == X64 && ranges[j].start <= start && end <= ranges[j].end
      ensures i == Some(j)
    {
    }
  }

  /** `parse_entry_ranges`, once the table has been located. */
  method ParseEntries(bytes: seq<Byte>, offset: nat, count: nat, ranges: seq<CodeRange>, sections: seq<Section>, sizeOfImage: nat)
    returns (status: Status, entries: seq<EntryRange>)
    requires CodeRangesOk(ranges, sections, sizeOfImage)
    requires count == 0 || offset + count * ENTRY_RECORD_SIZE <= |bytes|
    ensures var raw := RawEntries(bytes, offset, count);
            && (status == Ok <==> forall i :: 0 <= i < count ==> EntryError(raw, i, ranges, sizeOfImage) == Ok)
            && (status == Ok ==> entries == raw && EntryRangesOk(entries, ranges, sizeOfImage))
            && (status != Ok ==> exists i :: 0 <= i < count && EntryError(raw, i, ranges, sizeOfImage) == status
                                   && forall k :: 0 <= k < i ==> EntryError(raw, k, ranges, sizeOfImage) == Ok)
  {
    hide InsideX64, CodeRangesOk, EntryRangesOk, EntryAt;
    ghost var raw := RawEntries(bytes, offset, count);
    entries := [];
    for i := 0 to count
      invariant entries == raw[..i]
      invariant forall k :: 0 <= k < i ==> EntryError(raw, k, ranges, sizeOfImage) == Ok
    {
      RecordFits(count, ENTRY_RECORD_SIZE, i);
      var r := EntryAt(bytes, offset + i * ENTRY_RECORD_SIZE);
      assert r == raw[i];
      ghost var error := EntryError(raw, i, ranges, sizeOfImage);
      if r.start >= r.end || r.end > sizeOfImage || r.entry < r.start || r.entry >= r.end {
        return BadChpeMetadata, entries;
      }
      if i > 0 {
        assert entries[i - 1] == raw[i - 1];
        if r.start < entries[i - 1].start {
          return UnsortedRanges, entries;
        }
        if r.start < entries[i - 1].end {
          return OverlappingRanges, entries;
        }
      }
      var inside := ContainsClass(ranges, sections, sizeOfImage, r.start, r.end);
      if !inside {
        return BadChpeMetadata, entries;
      }
      entries := entries + [r];
    }
    CheckedEntries(raw, ranges, sizeOfImage);
    status := Ok;
  }

  // ---- Redirections ----

  function RedirectionAt(bytes: seq<Byte>, offset: nat): Redirection
    requires offset + REDIRECTION_RECORD_SIZE <= |bytes|
  {
    Redirection(ReadU32(bytes, offset), ReadU32(bytes, offset + 4))
  }

  function RawRedirections(bytes: seq<Byte>, offset: nat, count: nat): (redirections: seq<Redirection>)
    requires count == 0 || offset + count * REDIRECTION_RECORD_SIZE <= |bytes|
    ensures |redirections| == count
  {
    seq(count, i requires 0 <= i < count =>
      RecordFits(count, REDIRECTION_RECORD_SIZE, i);
      RedirectionAt(bytes, offset + i * REDIRECTION_RECORD_SIZE))
  }

  ghost function RedirectionError(redirections: seq<Redirection>, i: nat, sizeOfImage: nat): Status
    requires i < |redirections|
  {
    var r := redirections[i];
    if r.source >= sizeOfImage || r.destination >= sizeOfImage then BadChpeMetadata
    else if i > 0 && r.source < redirections[i - 1].source then UnsortedRanges
    else if i > 0 && r.source == redirections[i - 1].source then OverlappingRanges
    else Ok
  }

  lemma {:induction false} SourcesAscend(redirections: seq<Redirection>, sizeOfImage: nat, i: nat, j: nat)
    requires forall k :: 0 <= k < |redirections| ==> RedirectionError(redirections, k, sizeOfImage) == Ok
    requires i < j < |redirections|
    ensures redirections[i].source < redirections[j].source
    decreases j
  {
    assert RedirectionError(redirections, j, sizeOfImage) == Ok;
    if i < j - 1 {
      SourcesAscend(redirections, sizeOfImage, i, j - 1);
    }
  }

  lemma CheckedRedirections(redirections: seq<Redirection>, sizeOfImage: nat)
    requires forall k :: 0 <= k < |redirections| ==> RedirectionError(redirections, k, sizeOfImage) == Ok
    ensures RedirectionsOk(redirections, sizeOfImage)
  {
    forall i | 0 <= i < |redirections|
      ensures redirections[i].source < sizeOfImage && redirections[i].destination < sizeOfImage
    {
      assert RedirectionError(redirections, i, sizeOfImage) == Ok;
    }
    forall i, j | 0 <= i < j < |redirections| ensures redirections[i].source < redirections[j].source {
      SourcesAscend(redirections, sizeOfImage, i, j);
    }
  }

  /** `parse_redirections`, once the table has been located. */
  method ParseRedirections(bytes: seq<Byte>, offset: nat, count: nat, sizeOfImage: nat)
    returns (status: Status, redirections: seq<Redirection>)
    requires count == 0 || offset + count * REDIRECTION_RECORD_SIZE <= |bytes|
    ensures var raw := RawRedirections(bytes, offset, count);
            && (status == Ok <==> forall i :: 0 <= i < count ==> RedirectionError(raw, i, sizeOfImage) == Ok)
            && (status == Ok ==> redirections == raw && RedirectionsOk(redirections, sizeOfImage))
            && (status != Ok ==> exists i :: 0 <= i < count && RedirectionError(raw, i, sizeOfImage) == status
                                   && forall k :: 0 <= k < i ==> RedirectionError(raw, k, sizeOfImage) == Ok)
  {
    hide RedirectionsOk, RedirectionAt;
    ghost var raw := RawRedirections(bytes, offset, count);
    redirections := [];
    for i := 0 to count
      invariant redirections == raw[..i]
      invariant forall k :: 0 <= k < i ==> RedirectionError(raw, k, sizeOfImage) == Ok
    {
      RecordFits(count, REDIRECTION_RECORD_SIZE, i);
      var r := RedirectionAt(bytes, offset + i * REDIRECTION_RECORD_SIZE);
      assert r == raw[i];
      ghost var error := RedirectionError(raw, i, sizeOfImage);
      if r.source >= sizeOfImage || r.destination >= sizeOfImage {
        return BadChpeMetadata, redirections;
      }
      if i > 0 {
        assert redirections[i - 1] == raw[i - 1];
        if r.source < redirections[i - 1].source {
          return UnsortedRanges, redirections;
        }
        if r.source == redirections[i - 1].source {
          return OverlappingRanges, redirections;
        }
      }
      redirections := redirections + [r];
    }
    CheckedRedirections(raw, sizeOfImage);
    status := Ok;
  }

  // ---- Headers ----

  const DOS_HEADER_SIZE := 64
  const COFF_HEADER_SIZE := 20
  const PE_SIGNATURE := 0x00004550
  const MACHINE_ARM64X := 0xA64E
  const MACHINE_ARM64EC := 0xA641
  const MACHINE_ARM64 := 0xAA64
  const MACHINE_AMD64 := 0x8664
  const PE32_PLUS := 0x020B
  const DATA_DIRECTORY_OFFSET := 112
  const DATA_DIRECTORY_SIZE := 8
  const LOAD_CONFIG_DIRECTORY := 10

  datatype ParseOptions = ParseOptions(
    version: nat, maxSections: nat, maxCodeRanges: nat, maxEntryRanges: nat, maxRedirections: nat)

  const OPTIONS_VERSION := 1
  const DEFAULT_OPTIONS := ParseOptions(OPTIONS_VERSION, 96, 4096, 65536, 65536)
  const MAX_METADATA_BYTES := 8388608

  predicate OptionsOk(o: ParseOptions) {
    o.version == OPTIONS_VERSION && o.maxSections > 0 && o.maxCodeRanges > 0 && o.maxEntryRanges > 0 && o.maxRedirections > 0
  }

  datatype Headers = Headers(
    machine: nat, imageBase: nat, sizeOfImage: nat, sizeOfHeaders: nat, sectionCount: nat, sectionTable: nat, directory: nat)

  datatype HeaderResult = HeaderResult(status: Status, headers: Headers)

  const NO_HEADERS := HeaderResult(Truncated, Headers(0, 0, 0, 0, 0, 0, 0))

  predicate MachineOk(machine: nat, mapped: bool) {
    || machine == MACHINE_ARM64 || machine == MACHINE_ARM64X
    || (mapped && (machine == MACHINE_ARM64EC || machine == MACHINE_AMD64))
  }

  /** Everything `parse_headers` checks before it walks the section table. */
  function ReadHeaders(bytes: seq<Byte>, mapped: bool, maxSections: nat): (r: HeaderResult)
    ensures r.status == Ok ==>
              && 0 < r.headers.sizeOfImage <= UINT32_MAX && r.headers.sizeOfHeaders <= |bytes|
              && 0 < r.headers.sectionCount <= maxSections
              && r.headers.sectionTable + r.headers.sectionCount * SECTION_HEADER_SIZE <= |bytes|
              && r.headers.directory + DATA_DIRECTORY_SIZE <= |bytes|
              && (mapped ==> r.headers.sizeOfImage <= |bytes|) && MachineOk(r.headers.machine, mapped)
  {
    if |bytes| < DOS_HEADER_SIZE then NO_HEADERS
    else if bytes[0] != 0x4D || bytes[1] != 0x5A then NO_HEADERS.(status := BadDosHeader)
    else
      var pe := ReadU32(bytes, 0x3C);
      if pe < DOS_HEADER_SIZE then NO_HEADERS.(status := BadDosHeader)
      else if pe + 4 + COFF_HEADER_SIZE > |bytes| then NO_HEADERS
      else if ReadU32(bytes, pe) != PE_SIGNATURE then NO_HEADERS.(status := BadPeSignature)
      else
        var coff := pe + 4;
        var machine, count, optionalSize := Read(bytes, coff, 2), Read(bytes, coff + 2, 2), Read(bytes, coff + 16, 2);
        var optional := coff + COFF_HEADER_SIZE;
        if !MachineOk(machine, mapped) then NO_HEADERS.(status := UnsupportedFormat)
        else if count == 0 || count > maxSections then NO_HEADERS.(status := LimitExceeded)
        else if optional + optionalSize > |bytes| then NO_HEADERS
        else if optionalSize < DATA_DIRECTORY_OFFSET + (LOAD_CONFIG_DIRECTORY + 1) * DATA_DIRECTORY_SIZE
        then NO_HEADERS.(status := BadOptionalHeader)
        else if Read(bytes, optional, 2) != PE32_PLUS then NO_HEADERS.(status := UnsupportedFormat)
        else
          var sectionAlignment, fileAlignment := ReadU32(bytes, optional + 32), ReadU32(bytes, optional + 36);
          var sizeOfImage, sizeOfHeaders := ReadU32(bytes, optional + 56), ReadU32(bytes, optional + 60);
          var table := optional + optionalSize;
          if sectionAlignment == 0 || fileAlignment == 0 || sectionAlignment < fileAlignment || sizeOfImage == 0
             || sizeOfHeaders == 0 || ReadU32(bytes, optional + 108) <= LOAD_CONFIG_DIRECTORY
             || sizeOfHeaders > |bytes| || (mapped && sizeOfImage > |bytes|)
          then NO_HEADERS.(status := BadOptionalHeader)
          else if table + count * SECTION_HEADER_SIZE > |bytes| then NO_HEADERS.(status := BadSectionTable)
          else
            HeaderResult(Ok, Headers(
              machine, Read(bytes, optional + 24, 8), sizeOfImage, sizeOfHeaders, count, table,
              optional + DATA_DIRECTORY_OFFSET + LOAD_CONFIG_DIRECTORY * DATA_DIRECTORY_SIZE))
  }

  // ---- Load configuration and CHPE metadata ----

  const CHPE_POINTER_OFFSET := 0xC8
  const CHPE_POINTER_END := 0xD0

  datatype Chpe = Chpe(
    version: nat, codeMapRva: nat, codeMapCount: nat, entriesRva: nat, redirectionsRva: nat,
    entryCount: nat, redirectionCount: nat)

  datatype ChpeResult = ChpeResult(status: Status, chpe: Chpe)

  const NO_CHPE := ChpeResult(BadLoadConfig, Chpe(0, 0, 0, 0, 0, 0, 0))

  /** The complete metadata record of each known version. */
  function MetadataSize(version: nat): nat { if version == 1 then 80 else 92 }

  function ReadChpe(bytes: seq<Byte>, image: Image, directory: nat, mapped: bool, loadedBase: nat): (r: ChpeResult)
    requires image.byteCount == |bytes| && directory + DATA_DIRECTORY_SIZE <= |bytes|
    ensures r.status == Ok ==> r.chpe.version == 1 || r.chpe.version == 2
  {
    var rva, size := ReadU32(bytes, directory), ReadU32(bytes, directory + 4);
    if rva == 0 || size < CHPE_POINTER_END then NO_CHPE
    else
      var config := ParserOffset(image, mapped, rva, CHPE_POINTER_END);
      if config.status != Ok || ReadU32(bytes, config.value) < CHPE_POINTER_END then NO_CHPE
      else
        var va := Read(bytes, config.value + CHPE_POINTER_OFFSET, 8);
        var base := if mapped then loadedBase else image.imageBase;
        if va == 0 then NO_CHPE.(status := NoChpeMetadata)
        else if va < base || va - base > UINT32_MAX then NO_CHPE
        else
          var at := ParserOffset(image, mapped, va - base, 4);
          if at.status != Ok then NO_CHPE.(status := BadChpeMetadata)
          else
            var version := ReadU32(bytes, at.value);
            if version != 1 && version != 2 then NO_CHPE.(status := UnsupportedChpeVersion)
            else
              var o := ParserOffset(image, mapped, va - base, MetadataSize(version));
              if o.status != Ok then NO_CHPE.(status := BadChpeMetadata)
              else
                ChpeResult(Ok, Chpe(
                  version, ReadU32(bytes, o.value + 4), ReadU32(bytes, o.value + 8), ReadU32(bytes, o.value + 12),
                  ReadU32(bytes, o.value + 16), ReadU32(bytes, o.value + 48), ReadU32(bytes, o.value + 52)))
  }

  /** Table sizes are limited one by one and all together. */
  function CheckCounts(chpe: Chpe, options: ParseOptions): Status {
    if chpe.codeMapCount > options.maxCodeRanges || chpe.entryCount > options.maxEntryRanges
       || chpe.redirectionCount > options.maxRedirections
    then LimitExceeded
    else if 12 * chpe.codeMapCount + 12 * chpe.entryCount + 8 * chpe.redirectionCount > MAX_METADATA_BYTES then LimitExceeded
    else Ok
  }

  // ---- The whole image ----

  function ImageOf(h: Headers, byteCount: nat, sections: seq<Section>): Image {
    Image(h.sizeOfImage, h.sizeOfHeaders, byteCount, h.imageBase, sections, [], [], [])
  }

  /** What the file holds of each section lies in the file. */
  predicate RawInFile(sections: seq<Section>, byteCount: nat) {
    forall i :: 0 <= i < |sections| && sections[i].rawSize != 0 ==>
      sections[i].rawPointer + sections[i].rawSize <= UINT32_MAX && sections[i].rawPointer + sections[i].rawSize <= byteCount
  }

  /** The three tables are, record by record, what the bytes say. */
  ghost predicate TablesDecoded(bytes: seq<Byte>, base: Image, chpe: Chpe, mapped: bool, image: Image)
    requires base.byteCount == |bytes|
  {
    var code := TableOffset(base, mapped, chpe.codeMapRva, chpe.codeMapCount, CODE_MAP_RECORD_SIZE);
    var entries := TableOffset(base, mapped, chpe.entriesRva, chpe.entryCount, ENTRY_RECORD_SIZE);
    var redirections := TableOffset(base, mapped, chpe.redirectionsRva, chpe.redirectionCount, REDIRECTION_RECORD_SIZE);
    && code.status == Ok && entries.status == Ok && redirections.status == Ok
    && image == base.(
         codeRanges := RangesOf(RawCodeMap(bytes, code.value, chpe.codeMapCount)),
         entryRanges := RawEntries(bytes, entries.value, chpe.entryCount),
         redirections := RawRedirections(bytes, redirections.value, chpe.redirectionCount))
  }

  /** An image is, header by header and record by record, what the bytes say. */
  ghost predicate Decoded(bytes: seq<Byte>, loadedBase: nat, mapped: bool, options: ParseOptions, image: Image) {
    var h := ReadHeaders(bytes, mapped, options.maxSections);
    && h.status == Ok
    && image.sections == RawSections(bytes, h.headers.sectionTable, h.headers.sectionCount)
    && var base := ImageOf(h.headers, |bytes|, image.sections);
    var c := ReadChpe(bytes, base, h.headers.directory, mapped, loadedBase);
    && c.status == Ok && CheckCounts(c.chpe, options) == Ok
    && TablesDecoded(bytes, base, c.chpe, mapped, image)
  }

  /** What the bytes say makes sense. */
  ghost predicate Acceptable(bytes: seq<Byte>, loadedBase: nat, mapped: bool, options: ParseOptions, image: Image) {
    && Decoded(bytes, loadedBase, mapped, options, image)
    && WellFormed(image) && (mapped || RawInFile(image.sections, |bytes|))
  }

  /** Which of the parser's allocations succeed. */
  datatype Room = Room(image: bool, sections: bool, tables: bool)

  // ---- Which error is reported ----

  /** The first error of a table, record by record. */
  ghost function FirstBad(errors: seq<Status>): Status {
    if errors == [] then Ok else if errors[0] != Ok then errors[0] else FirstBad(errors[1..])
  }

  lemma {:induction false} FirstBadIs(errors: seq<Status>, status: Status)
    requires status == Ok <==> forall i :: 0 <= i < |errors| ==> errors[i] == Ok
    requires status != Ok ==> exists i :: 0 <= i < |errors| && errors[i] == status && forall k :: 0 <= k < i ==> errors[k] == Ok
    ensures FirstBad(errors) == status
    decreases |errors|
  {
    if errors != [] && errors[0] == Ok {
      var rest := errors[1..];
      assert forall i :: 0 <= i < |rest| ==> rest[i] == errors[i + 1];
      assert forall i :: 0 < i < |errors| ==> errors[i] == rest[i - 1];
      if status != Ok {
        var i :| 0 <= i < |errors| && errors[i] == status && forall k :: 0 <= k < i ==> errors[k] == Ok;
        assert rest[i - 1] == status && forall k :: 0 <= k < i - 1 ==> rest[k] == Ok;
      }
      FirstBadIs(rest, status);
    }
  }

  ghost function SectionErrors(sections: seq<Section>, sizeOfImage: nat, byteCount: nat, mapped: bool): (errors: seq<Status>)
    ensures |errors| == |sections|
    ensures forall i :: 0 <= i < |errors| ==> errors[i] == SectionError(sections, i, sizeOfImage, byteCount, mapped)
  {
    seq(|sections|, i requires 0 <= i < |sections| => SectionError(sections, i, sizeOfImage, byteCount, mapped))
  }

  ghost function CodeErrors(records: seq<CodeRecord>, sections: seq<Section>, sizeOfImage: nat): (errors: seq<Status>)
    ensures |errors| == |records|
    ensures forall i :: 0 <= i < |errors| ==> errors[i] == CodeRecordError(records, i, sections, sizeOfImage)
  {
    seq(|records|, i requires 0 <= i < |records| => CodeRecordError(records, i, sections, sizeOfImage))
  }

  ghost function EntryErrors(entries: seq<EntryRange>, ranges: seq<CodeRange>, sizeOfImage: nat): (errors: seq<Status>)
    ensures |errors| == |entries|
    ensures forall i :: 0 <= i < |errors| ==> errors[i] == EntryError(entries, i, ranges, sizeOfImage)
  {
    seq(|entries|, i requires 0 <= i < |entries| => EntryError(entries, i, ranges, sizeOfImage))
  }

  ghost function RedirectionErrors(redirections: seq<Redirection>, sizeOfImage: nat): (errors: seq<Status>)
    ensures |errors| == |redirections|
    ensures forall i :: 0 <= i < |errors| ==> errors[i] == RedirectionError(redirections, i, sizeOfImage)
  {
    seq(|redirections|, i requires 0 <= i < |redirections| => RedirectionError(redirections, i, sizeOfImage))
  }

  /** The first of these that is not `Ok`; later ones do not matter. */
  ghost function Then(first: Status, next: Status): Status {
    if first != Ok then first else next
  }

  /** What is wrong with the three tables: a table's place first, then its records, table after table. */
  ghost function TablesVerdict(bytes: seq<Byte>, base: Image, chpe: Chpe, mapped: bool): Status
    requires base.byteCount == |bytes|
  {
    var code := TableOffset(base, mapped, chpe.codeMapRva, chpe.codeMapCount, CODE_MAP_RECORD_SIZE);
    var entries := TableOffset(base, mapped, chpe.entriesRva, chpe.entryCount, ENTRY_RECORD_SIZE);
    var redirections := TableOffset(base, mapped, chpe.redirectionsRva, chpe.redirectionCount, REDIRECTION_RECORD_SIZE);
    if code.status != Ok then TableStatus(code)
    else
      var records := RawCodeMap(bytes, code.value, chpe.codeMapCount);
      Then(
        FirstBad(CodeErrors(records, base.sections, base.sizeOfImage)),
        if entries.status != Ok then TableStatus(entries)
        else
          Then(
            FirstBad(EntryErrors(RawEntries(bytes, entries.value, chpe.entryCount), RangesOf(records), base.sizeOfImage)),
            if redirections.status != Ok then TableStatus(redirections)
            else FirstBad(RedirectionErrors(RawRedirections(bytes, redirections.value, chpe.redirectionCount), base.sizeOfImage))))
  }

  /** The status of a parse: that of the first stage that fails. */
  ghost function ParseVerdict(bytes: seq<Byte>, loadedBase: nat, mapped: bool, limits: ParseOptions, room: Room): Status {
    if bytes == [] || (mapped && loadedBase == 0) || !OptionsOk(limits) then InvalidArgument
    else if !room.image then LimitExceeded
    else
      var h := ReadHeaders(bytes, mapped, limits.maxSections);
      if h.status != Ok then h.status
      else if !room.sections then LimitExceeded
      else
        var sections := RawSections(bytes, h.headers.sectionTable, h.headers.sectionCount);
        var base := ImageOf(h.headers, |bytes|, sections);
        var c := ReadChpe(bytes, base, h.headers.directory, mapped, loadedBase);
        Then(
          FirstBad(SectionErrors(sections, h.headers.sizeOfImage, |bytes|, mapped)),
          Then(c.status,
               Then(CheckCounts(c.chpe, limits),
                    if !room.tables then LimitExceeded else TablesVerdict(bytes, base, c.chpe, mapped))))
  }

  /**
   `parse_image`, for files and for mapped images: with room for it, an image is accepted exactly when the bytes
   say something well formed, and then it is what they say; else the first stage that fails decides the status.
   */
  method ParseImage(bytes: seq<Byte>, loadedBase: nat, mapped: bool, options: Option<ParseOptions>, room: Room)
    returns (status: Status, image: Option<Image>)
    ensures status == Ok <==> image.Some?
    ensures var limits := if options.None? then DEFAULT_OPTIONS else options.value;
            && (status == Ok ==> Acceptable(bytes, loadedBase, mapped, limits, image.value))
            && (status == Ok <==>
                  && bytes != [] && (mapped ==> loadedBase != 0) && OptionsOk(limits) && room == Room(true, true, true)
                  && exists accepted :: Acceptable(bytes, loadedBase, mapped, limits, accepted))
            && status == ParseVerdict(bytes, loadedBase, mapped, limits, room)
  {
    hide FirstBad, TablesVerdict, SectionsOk, WellFormed, ReadHeaders, ReadChpe, CheckCounts, TablesDecoded, RawSections, RawInFile,
         SectionError;
    image := None;
    if bytes == [] || (mapped && loadedBase == 0) {
      return InvalidArgument, image;
    }
    var limits := if options.None? then DEFAULT_OPTIONS else options.value;
    if !OptionsOk(limits) {
      return InvalidArgument, image;
    }
    if !room.image {
      return LimitExceeded, image;
    }
    var h := ReadHeaders(bytes, mapped, limits.maxSections);
    if h.status != Ok {
      return h.status, image;
    }
    if !room.sections {
      return LimitExceeded, image;
    }
    var sections;
    status, sections := ParseSections(bytes, h.headers.sectionTable, h.headers.sectionCount, h.headers.sizeOfImage, mapped);
    ghost var raw := RawSections(bytes, h.headers.sectionTable, h.headers.sectionCount);
    FirstBadIs(SectionErrors(raw, h.headers.sizeOfImage, |bytes|, mapped), status);
    GoodSections(raw, h.headers.sizeOfImage, |bytes|, mapped);
    if status != Ok {
      forall accepted | Acceptable(bytes, loadedBase, mapped, limits, accepted) ensures false {
        SameSections(bytes, loadedBase, mapped, limits, accepted);
      }
      return;
    }
    var base := ImageOf(h.headers, |bytes|, sections);
    var c := ReadChpe(bytes, base, h.headers.directory, mapped, loadedBase);
    if c.status != Ok {
      return c.status, image;
    }
    status := CheckCounts(c.chpe, limits);
    if status != Ok {
      return;
    }
    if !room.tables {
      return LimitExceeded, image;
    }
    status, image := ParseTables(bytes, base, c.chpe, mapped);
    if status == Ok {
      SameTables(bytes, base, c.chpe, mapped, image.value);
    }
  }

  /** Sections and size of an image are those of its headers. */
  lemma SameSections(bytes: seq<Byte>, loadedBase: nat, mapped: bool, options: ParseOptions, image: Image)
    requires Acceptable(bytes, loadedBase, mapped, options, image)
    ensures var h := ReadHeaders(bytes, mapped, options.maxSections);
            && image.sizeOfImage == h.headers.sizeOfImage && SectionsOk(image.sections, image.sizeOfImage)
            && image.sections == RawSections(bytes, h.headers.sectionTable, h.headers.sectionCount)
  {
    hide SectionsOk, CodeRangesOk, EntryRangesOk, RedirectionsOk, RangesOf, RawCodeMap, RawEntries, RawRedirections;
  }

  lemma SameTables(bytes: seq<Byte>, base: Image, chpe: Chpe, mapped: bool, image: Image)
    requires base.byteCount == |bytes| && TablesDecoded(bytes, base, chpe, mapped, image)
    ensures image.sections == base.sections
  {
    hide RangesOf, RawCodeMap, RawEntries, RawRedirections;
  }

  /** The three tables, in the order the source parses them. */
  method ParseTables(bytes: seq<Byte>, base: Image, chpe: Chpe, mapped: bool) returns (status: Status, image: Option<Image>)
    requires base.byteCount == |bytes| && SectionsOk(base.sections, base.sizeOfImage) && 0 < base.sizeOfImage <= UINT32_MAX
    ensures status == Ok <==> image.Some?
    ensures status == Ok ==> WellFormed(image.value) && TablesDecoded(bytes, base, chpe, mapped, image.value)
    ensures forall accepted :: TablesDecoded(bytes, base, chpe, mapped, accepted) && WellFormed(accepted) ==> status == Ok
    ensures status == TablesVerdict(bytes, base, chpe, mapped)
  {
    hide FirstBad, SectionsOk, CodeRangesOk, EntryRangesOk, RedirectionsOk, TableOffset, RawCodeMap, RawEntries, RawRedirections,
         RangesOf, CodeRecordError, EntryError, RedirectionError;
    image := None;
    var code := TableOffset(base, mapped, chpe.codeMapRva, chpe.codeMapCount, CODE_MAP_RECORD_SIZE);
    if code.status != Ok {
      return TableStatus(code), image;
    }
    var ranges;
    status, ranges := ParseCodeMap(bytes, code.value, chpe.codeMapCount, base.sections, base.sizeOfImage);
    FirstBadIs(CodeErrors(RawCodeMap(bytes, code.value, chpe.codeMapCount), base.sections, base.sizeOfImage), status);
    GoodCodeMap(bytes, code.value, chpe.codeMapCount, base.sections, base.sizeOfImage);
    if status != Ok {
      return;
    }
    var entryTable := TableOffset(base, mapped, chpe.entriesRva, chpe.entryCount, ENTRY_RECORD_SIZE);
    if entryTable.status != Ok {
      return TableStatus(entryTable), image;
    }
    var entries;
    status, entries := ParseEntries(bytes, entryTable.value, chpe.entryCount, ranges, base.sections, base.sizeOfImage);
    FirstBadIs(EntryErrors(RawEntries(bytes, entryTable.value, chpe.entryCount), ranges, base.sizeOfImage), status);
    GoodEntries(RawEntries(bytes, entryTable.value, chpe.entryCount), ranges, base.sizeOfImage);
    if status != Ok {
      return;
    }
    var redirectionTable := TableOffset(base, mapped, chpe.redirectionsRva, chpe.redirectionCount, REDIRECTION_RECORD_SIZE);
    if redirectionTable.status != Ok {
      return TableStatus(redirectionTable), image;
    }
    var redirections;
    status, redirections := ParseRedirections(bytes, redirectionTable.value, chpe.redirectionCount, base.sizeOfImage);
    FirstBadIs(RedirectionErrors(RawRedirections(bytes, redirectionTable.value, chpe.redirectionCount), base.sizeOfImage), status);
    GoodRedirections(RawRedirections(bytes, redirectionTable.value, chpe.redirectionCount), base.sizeOfImage);
    if status == Ok {
      image := Some(base.(codeRanges := ranges, entryRanges := entries, redirections := redirections));
    }
  }

  // ---- Tables that make sense have no bad record ----

  lemma GoodSections(sections: seq<Section>, sizeOfImage: nat, byteCount: nat, mapped: bool)
    ensures (forall k :: 0 <= k < |sections| ==> SectionError(sections, k, sizeOfImage, byteCount, mapped) == Ok)
       <==> SectionsOk(sections, sizeOfImage) && (mapped || RawInFile(sections, byteCount))
  {
    if forall k :: 0 <= k < |sections| ==> SectionError(sections, k, sizeOfImage, byteCount, mapped) == Ok {
      CheckedSections(sections, sizeOfImage, byteCount, mapped);
      forall i | 0 <= i < |sections| && !mapped && sections[i].rawSize != 0
        ensures sections[i].rawPointer + sections[i].rawSize <= UINT32_MAX && sections[i].rawPointer + sections[i].rawSize <= byteCount
      {
        assert SectionError(sections, i, sizeOfImage, byteCount, mapped) == Ok;
      }
    }
  }

  lemma GoodCodeMap(bytes: seq<Byte>, offset: nat, count: nat, sections: seq<Section>, sizeOfImage: nat)
    requires count == 0 || offset + count * CODE_MAP_RECORD_SIZE <= |bytes|
    requires sizeOfImage <= UINT32_MAX
    ensures (forall k :: 0 <= k < count ==> CodeRecordError(RawCodeMap(bytes, offset, count), k, sections, sizeOfImage) == Ok)
       <==> CodeRangesOk(RangesOf(RawCodeMap(bytes, offset, count)), sections, sizeOfImage)
  {
    hide InExecutable, RawCodeMap;
    var raw := RawCodeMap(bytes, offset, count);
    CodeRecordsPlain(bytes, offset, count);
    if forall k :: 0 <= k < count ==> CodeRecordError(raw, k, sections, sizeOfImage) == Ok {
      CheckedCodeMap(raw, sections, sizeOfImage);
    }
    if CodeRangesOk(RangesOf(raw), sections, sizeOfImage) {
      forall k | 0 <= k < count ensures CodeRecordError(raw, k, sections, sizeOfImage) == Ok {
        var ranges := RangesOf(raw);
        assert CodeRangeFits(ranges[k], sections, sizeOfImage);
        if k > 0 {
          assert CodeRangeFits(ranges[k - 1], sections, sizeOfImage) && ranges[k - 1].end <= ranges[k].start;
        }
      }
    }
  }

  lemma GoodEntries(entries: seq<EntryRange>, ranges: seq<CodeRange>, sizeOfImage: nat)
    ensures (forall k :: 0 <= k < |entries| ==> EntryError(entries, k, ranges, sizeOfImage) == Ok)
       <==> EntryRangesOk(entries, ranges, sizeOfImage)
  {
    hide InsideX64;
    if forall k :: 0 <= k < |entries| ==> EntryError(entries, k, ranges, sizeOfImage) == Ok {
      CheckedEntries(entries, ranges, sizeOfImage);
    }
    if EntryRangesOk(entries, ranges, sizeOfImage) {
      forall k | 0 <= k < |entries| ensures EntryError(entries, k, ranges, sizeOfImage) == Ok {
        assert EntryRangeFits(entries[k], ranges, sizeOfImage);
        if k > 0 {
          assert EntryRangeFits(entries[k - 1], ranges, sizeOfImage) && entries[k - 1].end <= entries[k].start;
        }
      }
    }
  }

  lemma GoodRedirections(redirections: seq<Redirection>, sizeOfImage: nat)
    ensures (forall k :: 0 <= k < |redirections| ==> RedirectionError(redirections, k, sizeOfImage) == Ok)
       <==> RedirectionsOk(redirections, sizeOfImage)
  {
    if forall k :: 0 <= k < |redirections| ==> RedirectionError(redirections, k, sizeOfImage) == Ok {
      CheckedRedirections(redirections, sizeOfImage);
    }
  }
}

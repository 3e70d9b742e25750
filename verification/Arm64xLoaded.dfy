/**
 What loading an ARM64X image comes to, byte by byte and page by page, without the steps of the loader: which
 images are refused and for what, and what of an image that is loaded can be read, written and run.
 */
module Arm64xLoaded {
  import opened Options
  import opened GuestMemory
  import opened MemoryInvariants
  import opened MappingEffects
  import opened MappingCalls
  import opened PagedAccess
  import opened Arm64xImage
  import opened Arm64xLayout
  import opened Arm64xLoader
  import LittleEndian

  // ---- Protections ----

  /** What a section's characteristics allow: bit 29 is execution, bit 30 reading, bit 31 writing. */
  ghost function Granted(characteristics: nat): nat {
    var x, r, w := characteristics / 0x2000_0000 % 2, characteristics / 0x4000_0000 % 2, characteristics / 0x8000_0000 % 2;
    if x == 1 then if w == 1 then 0x40 else if r == 1 then 0x20 else 0x10
    else if w == 1 then 0x04 else if r == 1 then 0x02 else 0x01
  }

  lemma GrantedIs(characteristics: nat)
    ensures SectionProtection(characteristics) == Granted(characteristics)
  {
  }

  /** Some byte of a section lies in a page. */
  ghost predicate Meets(s: Section, k: nat) {
    exists rva: nat :: Occupies(s, rva) && rva / 4096 == k
  }

  lemma TouchesMeans(s: Section, k: nat)
    requires s.virtualSize + s.rawSize > 0
    ensures Touches(s, k) <==> Meets(s, k)
  {
    var end := s.virtualAddress + if s.virtualSize > s.rawSize then s.virtualSize else s.rawSize;
    if Touches(s, k) {
      var rva := if s.virtualAddress > k * 4096 then s.virtualAddress else k * 4096;
      assert Occupies(s, rva) && rva / 4096 == k;
    }
    forall rva: nat | Occupies(s, rva) && rva / 4096 == k ensures Touches(s, k) {
      assert s.virtualAddress <= rva < end;
    }
  }

  /** A byte of the headers lies in a page. */
  ghost predicate HeaderPage(image: Image, k: nat) {
    k * 4096 < image.sizeOfHeaders
  }

  /** Sections that meet in a page allow the same, and where they meet the headers no more than reading. */
  ghost predicate Compatible(image: Image) {
    && (forall i: nat, k: nat :: i < |image.sections| && Meets(image.sections[i], k) && HeaderPage(image, k) ==>
          Granted(image.sections[i].characteristics) == 0x02)
    && (forall i: nat, j: nat, k: nat ::
          i < |image.sections| && j < |image.sections| && Meets(image.sections[i], k) && Meets(image.sections[j], k) ==>
            Granted(image.sections[i].characteristics) == Granted(image.sections[j].characteristics))
  }

  lemma CompatibleIsAgreed(image: Image)
    requires SectionsOk(image.sections, image.sizeOfImage)
    ensures Agreed(image, |image.sections|) <==> Compatible(image)
  {
    hide Touches, Meets, SectionProtection, Granted;
    forall i: nat, k: nat | i < |image.sections|
      ensures Touches(image.sections[i], k) <==> Meets(image.sections[i], k)
      ensures SectionProtection(image.sections[i].characteristics) == Granted(image.sections[i].characteristics)
    {
      assert SectionFits(image.sections[i], image.sizeOfImage);
      TouchesMeans(image.sections[i], k);
      GrantedIs(image.sections[i].characteristics);
    }
    forall k: nat ensures k < PagesFor(image.sizeOfHeaders) <==> HeaderPage(image, k) {
      HeaderPages(image, k);
    }
    if Agreed(image, |image.sections|) {
      forall i: nat, j: nat, k: nat |
        i < |image.sections| && j < |image.sections| && Meets(image.sections[i], k) && Meets(image.sections[j], k)
        ensures Granted(image.sections[i].characteristics) == Granted(image.sections[j].characteristics)
      {
        assert Touches(image.sections[i], k) && Touches(image.sections[j], k);
      }
    }
    if Compatible(image) {
      forall i, k | 0 <= i < |image.sections| && 0 <= k && Touches(image.sections[i], k)
        ensures k < PagesFor(image.sizeOfHeaders) ==> SectionProtection(image.sections[i].characteristics) == READ_ONLY
        ensures forall j :: 0 <= j < i && Touches(image.sections[j], k) ==>
                  SectionProtection(image.sections[i].characteristics) == SectionProtection(image.sections[j].characteristics)
      {
        assert Meets(image.sections[i], k);
        HeaderPages(image, k);
        forall j | 0 <= j < i && Touches(image.sections[j], k)
          ensures SectionProtection(image.sections[i].characteristics) == SectionProtection(image.sections[j].characteristics)
        {
          assert Meets(image.sections[j], k);
        }
      }
    }
  }

  /** The protection of a loaded page: what its sections allow, else reading if headers are in it, else nothing. */
  lemma FinalMeans(image: Image, k: nat)
    requires SectionsOk(image.sections, image.sizeOfImage) && Agreed(image, |image.sections|)
    ensures !FinalProtection(image, k).guard
    ensures forall i: nat :: i < |image.sections| && Meets(image.sections[i], k) ==>
              FinalProtection(image, k).access == Granted(image.sections[i].characteristics)
    ensures (forall i: nat :: i < |image.sections| ==> !Meets(image.sections[i], k)) ==>
              FinalProtection(image, k).access == if HeaderPage(image, k) then 0x02 else 0x01
  {
    hide Touches, Meets, SectionProtection, Granted, Decided, Agreed;
    var n := |image.sections|;
    AgreedExactly(image, n);
    forall i: nat | i < n
      ensures Touches(image.sections[i], k) <==> Meets(image.sections[i], k)
      ensures Touches(image.sections[i], k) ==> FinalProtection(image, k).access == Granted(image.sections[i].characteristics)
    {
      assert SectionFits(image.sections[i], image.sizeOfImage);
      TouchesMeans(image.sections[i], k);
      GrantedIs(image.sections[i].characteristics);
      ProtectionIsOk(image.sections[i].characteristics);
      if Touches(image.sections[i], k) {
        DecidedCovers(image, n, i, k);
      }
    }
    DecidedBy(image, n, k);
    HeaderPages(image, k);
    if k < PagesFor(image.sizeOfHeaders) {
      DecidedHeaders(image, n, k);
    }
  }

  lemma HeaderPages(image: Image, k: nat)
    ensures k < PagesFor(image.sizeOfHeaders) <==> HeaderPage(image, k)
  {
  }

  // ---- Which images are refused ----

  /** The file has the raw data of a section. */
  ghost predicate RawAt(image: Image, i: nat, at: nat) {
    i < |image.sections| && Located(image, false, image.sections[i].virtualAddress, image.sections[i].rawSize, at)
  }

  ghost predicate Stored(image: Image, i: nat) {
    i < |image.sections| && (image.sections[i].rawSize == 0 || exists at: nat :: RawAt(image, i, at))
  }

  /** A section before which nothing is wrong, that asks for other protections than its pages have already. */
  ghost predicate Clashes(image: Image, i: nat) {
    && i < |image.sections|
    && exists k: nat :: Meets(image.sections[i], k) && AlreadyOther(image, i, k)
  }

  /** Headers or an earlier section have given a page another protection. */
  ghost predicate AlreadyOther(image: Image, i: nat, k: nat)
    requires i < |image.sections|
  {
    || (HeaderPage(image, k) && Granted(image.sections[i].characteristics) != 0x02)
    || exists j: nat :: j < i && Meets(image.sections[j], k)
                        && Granted(image.sections[j].characteristics) != Granted(image.sections[i].characteristics)
  }

  ghost predicate Slot(s: Section, rva: nat) {
    s.virtualAddress <= rva && (rva + 8 <= s.virtualAddress + s.virtualSize || rva + 8 <= s.virtualAddress + s.rawSize)
  }

  /** A binding of eight bytes of data, to somewhere outside the image, whose slot no earlier binding has. */
  ghost predicate Bindable(image: Image, bindings: seq<Binding>, n: nat) {
    && n < |bindings| && bindings[n].value != 0
    && !(image.imageBase <= bindings[n].value < image.imageBase + image.sizeOfImage)
    && (exists i: nat :: i < |image.sections| && Slot(image.sections[i], bindings[n].slotRva)
                         && image.sections[i].characteristics / 0x2000_0000 % 2 == 0)
    && (forall i: nat :: i < n ==> bindings[i].slotRva != bindings[n].slotRva)
  }

  /** Whole pages at a page boundary, with headers inside the image, that end before the last address. */
  ghost predicate Placeable(image: Image) {
    && image.imageBase % 4096 == 0 && image.sizeOfImage % 4096 == 0 && 0 < image.sizeOfHeaders <= image.sizeOfImage
    && image.imageBase + image.sizeOfImage <= 0xFFFF_FFFF_FFFF_FFFF
  }

  /** The first `n` sections are in order. */
  ghost predicate InOrder(image: Image, n: nat) {
    forall i: nat :: i < n ==> !Clashes(image, i) && Stored(image, i)
  }

  /** The first section not in order, and what is wrong with it. */
  ghost predicate FirstOut(image: Image, i: nat, status: LoadStatus) {
    InOrder(image, i) && if Clashes(image, i) then status == PermissionConflict else !Stored(image, i) && status == BadSection
  }

  /** What is wrong with a load, in the order in which it is found out. */
  ghost predicate Refused(image: Image, imageBase: nat, bindings: seq<Binding>, room: bool, reserved: bool, status: LoadStatus) {
    if |bindings| > 32 then status == BadArgument
    else if imageBase != image.imageBase then status == RelocationRequired
    else if !Placeable(image) then status == SizeOverflow
    else if !room then status == MemoryError
    else if !reserved then status == AddressConflict
    else if imageBase == 0 then status == MemoryError
    else if !InOrder(image, |image.sections|) then
      exists i: nat :: i < |image.sections| && FirstOut(image, i, status)
    else if exists n: nat :: n < |bindings| && !Bindable(image, bindings, n) then status == BadBinding
    else status == Loaded
  }

  lemma StoredIs(image: Image, i: nat)
    requires SectionsOk(image.sections, image.sizeOfImage) && image.sizeOfImage <= 0xFFFF_FFFF && i < |image.sections|
    ensures SectionHeld(image, i) <==> Stored(image, i)
    ensures forall at: nat :: RawAt(image, i, at) ==>
              FileOffset(image, image.sections[i].virtualAddress, image.sections[i].rawSize) == Offset(Status.Ok, at)
  {
    hide FileOffset, Located, SectionsOk;
    Locating(image, false, image.sections[i].virtualAddress, image.sections[i].rawSize);
    var o := FileOffset(image, image.sections[i].virtualAddress, image.sections[i].rawSize);
    if o.status == Status.Ok {
      assert RawAt(image, i, o.value);
    }
  }

  lemma BindableIs(image: Image, bindings: seq<Binding>, n: nat)
    requires n < |bindings|
    ensures BindingOk(image, image.imageBase, bindings, n) <==> Bindable(image, bindings, n)
  {
    forall i: nat | i < |image.sections|
      ensures HoldsSlot(image.sections[i], bindings[n].slotRva) <==> Slot(image.sections[i], bindings[n].slotRva)
    {
    }
  }

  /** Where nothing clashed so far, a section disagrees with what is marked exactly when it clashes. */
  lemma ClashesIs(image: Image, i: nat)
    requires SectionsOk(image.sections, image.sizeOfImage) && i < |image.sections|
    requires forall j: nat :: j < i ==> SectionAgrees(image, j)
    ensures SectionAgrees(image, i) <==> !Clashes(image, i)
  {
    hide Touches, Meets, SectionProtection, Granted, Decided, SectionsOk;
    SectionsMeet(image);
    forall k: nat | Meets(image.sections[i], k)
      ensures Touches(image.sections[i], k)
      ensures AlreadyOther(image, i, k) <==>
                Decided(image, i, k) != 0 && Decided(image, i, k) != SectionProtection(image.sections[i].characteristics)
    {
      OtherIs(image, i, k);
    }
    if !SectionAgrees(image, i) {
      var k :| 0 <= k && Touches(image.sections[i], k)
               && !(Decided(image, i, k) == 0 || Decided(image, i, k) == SectionProtection(image.sections[i].characteristics));
      assert Meets(image.sections[i], k);
    }
  }

  lemma SectionsMeet(image: Image)
    requires SectionsOk(image.sections, image.sizeOfImage)
    ensures forall i: nat, k: nat :: i < |image.sections| ==> (Touches(image.sections[i], k) <==> Meets(image.sections[i], k))
  {
    hide Touches, Meets;
    forall i: nat, k: nat | i < |image.sections| ensures Touches(image.sections[i], k) <==> Meets(image.sections[i], k) {
      assert SectionFits(image.sections[i], image.sizeOfImage);
      TouchesMeans(image.sections[i], k);
    }
  }

  lemma OtherIs(image: Image, i: nat, k: nat)
    requires SectionsOk(image.sections, image.sizeOfImage) && i < |image.sections|
    requires forall j: nat :: j < i ==> SectionAgrees(image, j)
    ensures AlreadyOther(image, i, k) <==>
              Decided(image, i, k) != 0 && Decided(image, i, k) != SectionProtection(image.sections[i].characteristics)
  {
    hide Touches, Meets, SectionProtection, Granted, Decided, SectionAgrees, SectionsOk;
    SectionsMeet(image);
    HeaderPages(image, k);
    GrantedIs(image.sections[i].characteristics);
    if HeaderPage(image, k) {
      DecidedHeaders(image, i, k);
    }
    forall j: nat | j < i && Meets(image.sections[j], k)
      ensures Decided(image, i, k) == Granted(image.sections[j].characteristics) != 0
    {
      DecidedCovers(image, i, j, k);
      ProtectionIsOk(image.sections[j].characteristics);
      GrantedIs(image.sections[j].characteristics);
    }
    DecidedBy(image, i, k);
  }

  lemma {:induction false} InOrderIs(image: Image, n: nat)
    requires SectionsOk(image.sections, image.sizeOfImage) && image.sizeOfImage <= 0xFFFF_FFFF && n <= |image.sections|
    ensures InOrder(image, n) <==> SectionsVerdict(image, n) == Loaded
    ensures InOrder(image, n) <==> forall i: nat :: i < n ==> SectionAgrees(image, i) && SectionHeld(image, i)
    decreases n
  {
    hide SectionAgrees, SectionHeld, Clashes, Stored, SectionsOk;
    SectionsPass(image, n);
    if n > 0 {
      InOrderIs(image, n - 1);
      if InOrder(image, n - 1) {
        ClashesIs(image, n - 1);
        StoredIs(image, n - 1);
      }
    }
  }

  lemma {:induction false} SectionsRefusedFor(image: Image, n: nat)
    requires SectionsOk(image.sections, image.sizeOfImage) && image.sizeOfImage <= 0xFFFF_FFFF && n <= |image.sections|
    requires !InOrder(image, n)
    ensures exists i: nat :: i < n && FirstOut(image, i, SectionsVerdict(image, n))
    decreases n
  {
    hide SectionAgrees, SectionHeld, Clashes, Stored, SectionsOk;
    InOrderIs(image, n - 1);
    if InOrder(image, n - 1) {
      ClashesIs(image, n - 1);
      StoredIs(image, n - 1);
      assert FirstOut(image, n - 1, SectionsVerdict(image, n));
    } else {
      SectionsRefusedFor(image, n - 1);
      var i: nat :| i < n - 1 && FirstOut(image, i, SectionsVerdict(image, n - 1));
      assert FirstOut(image, i, SectionsVerdict(image, n));
    }
  }

  /** What becomes of a load, for every image, place and list of bindings. */
  lemma RefusedExactly(image: Image, imageBase: nat, bindings: seq<Binding>, room: bool, reserved: bool)
    requires WellFormed(image)
    ensures Refused(image, imageBase, bindings, room, reserved, Verdict(image, imageBase, bindings, room, reserved))
  {
    hide WellFormed, SectionsVerdict, InOrder, Bindable, BindingOk, Clashes, Stored;
    WellFormedParts(image);
    InOrderIs(image, |image.sections|);
    if !InOrder(image, |image.sections|) {
      SectionsRefusedFor(image, |image.sections|);
    }
    forall n: nat | n < |bindings| ensures BindingOk(image, image.imageBase, bindings, n) <==> Bindable(image, bindings, n) {
      BindableIs(image, bindings, n);
    }
  }

  lemma WellFormedParts(image: Image)
    requires WellFormed(image)
    ensures SectionsOk(image.sections, image.sizeOfImage) && image.sizeOfImage <= 0xFFFF_FFFF
  {
  }

  // ---- What a loaded image holds ----

  /** The k-th of the eight bytes of a value. */
  ghost function SlotByte(value: nat, k: nat): nat
    requires k < 8
  {
    match k
    case 0 => value % 0x100
    case 1 => value / 0x100 % 0x100
    case 2 => value / 0x1_0000 % 0x100
    case 3 => value / 0x100_0000 % 0x100
    case 4 => value / 0x1_0000_0000 % 0x100
    case 5 => value / 0x100_0000_0000 % 0x100
    case 6 => value / 0x1_0000_0000_0000 % 0x100
    case _ => value / 0x100_0000_0000_0000 % 0x100
  }

  /** The last binding whose slot has a byte. */
  ghost predicate BoundBy(bindings: seq<Binding>, n: nat, rva: nat) {
    && n < |bindings| && bindings[n].slotRva <= rva < bindings[n].slotRva + 8
    && forall j: nat :: n < j < |bindings| ==> !(bindings[j].slotRva <= rva < bindings[j].slotRva + 8)
  }

  ghost predicate InRawData(image: Image, i: nat, rva: nat) {
    && i < |image.sections|
    && image.sections[i].virtualAddress <= rva < image.sections[i].virtualAddress + image.sections[i].rawSize
  }

  /** The byte of a loaded image: of a binding, else of the section's raw data in the file, else of the headers, else 0. */
  ghost predicate ImageByte(image: Image, bytes: seq<Byte>, bindings: seq<Binding>, rva: nat, v: int) {
    if exists n: nat :: BoundBy(bindings, n, rva) then
      exists n: nat :: BoundBy(bindings, n, rva) && v == SlotByte(bindings[n].value, rva - bindings[n].slotRva)
    else if exists i: nat :: InRawData(image, i, rva) then
      exists i: nat, at: nat ::
        InRawData(image, i, rva) && RawAt(image, i, at) && FileByte(bytes, at + rva, image.sections[i].virtualAddress, v)
    else if rva < image.sizeOfHeaders then FileByte(bytes, rva, 0, v)
    else v == 0
  }

  ghost predicate FileByte(bytes: seq<Byte>, at: nat, less: nat, v: int) {
    less <= at && at - less < |bytes| && v == bytes[at - less]
  }

  lemma {:induction false} EncodedByte(value: nat, width: nat, k: nat)
    requires k < width
    ensures LittleEndian.Encode(value, width)[k] == value / LittleEndian.Capacity(k) % 256
    decreases width
  {
    if k > 0 {
      EncodedByte(value / 256, width - 1, k - 1);
      Shifted(value, LittleEndian.Capacity(k - 1));
    }
  }

  lemma Shifted(value: nat, c: nat)
    requires c > 0
    ensures value / 256 / c == value / (256 * c)
  {
    var q, r := value / 256 / c, value / 256 % c;
    assert value == (q * c + r) * 256 + value % 256;
    assert value == q * (256 * c) + (r * 256 + value % 256) && r * 256 + value % 256 < 256 * c;
    Quotient(value, 256 * c, q, r * 256 + value % 256);
  }

  lemma Quotient(v: int, d: int, q: int, r: int)
    requires 0 <= r < d && v == q * d + r
    ensures v / d == q
  {
    var x: int := v / d - q;
    assert x * d == r - v % d;
    assert x >= 1 ==> x * d >= d;
    assert x <= -1 ==> x * d <= -d;
  }

  lemma SlotBytes(value: nat, k: nat)
    requires k < 8
    ensures LittleEndian.Encode(value, 8)[k] == SlotByte(value, k)
  {
    EncodedByte(value, 8, k);
    Capacities8();
  }

  lemma Capacities8()
    ensures LittleEndian.Capacity(0) == 1 && LittleEndian.Capacity(1) == 0x100 && LittleEndian.Capacity(2) == 0x1_0000
    ensures LittleEndian.Capacity(3) == 0x100_0000 && LittleEndian.Capacity(4) == 0x1_0000_0000
    ensures LittleEndian.Capacity(5) == 0x100_0000_0000 && LittleEndian.Capacity(6) == 0x1_0000_0000_0000
    ensures LittleEndian.Capacity(7) == 0x100_0000_0000_0000
  {
    LittleEndian.Capacities();
    assert LittleEndian.Capacity(1) == 0x100 && LittleEndian.Capacity(2) == 0x1_0000 && LittleEndian.Capacity(3) == 0x100_0000;
    assert LittleEndian.Capacity(5) == 256 * LittleEndian.Capacity(4);
    assert LittleEndian.Capacity(6) == 256 * LittleEndian.Capacity(5);
    assert LittleEndian.Capacity(7) == 256 * LittleEndian.Capacity(6);
  }

  /** The byte the loader is proved to leave at an address is the byte of the image. */
  lemma LoadedByteIs(image: Image, bytes: seq<Byte>, bindings: seq<Binding>, rva: nat, v: Byte)
    requires WellFormed(image) && image.byteCount == |bytes| && image.sizeOfHeaders <= |bytes|
    requires LoadedByte(image, bytes, bindings, rva, v)
    ensures ImageByte(image, bytes, bindings, rva, v)
  {
    hide WellFormed, FileOffset, LittleEndian.Encode, SlotByte, Located;
    WellFormedParts(image);
    if n: nat :| BoundBy(bindings, n, rva) {
      assert LastToBind(bindings, n, rva);
      SlotBytes(bindings[n].value, rva - bindings[n].slotRva);
    } else {
      NobodyBinds(bindings, rva);
      assert PlacedByte(image, bytes, rva, v);
      if i: nat :| InRawData(image, i, rva) {
        FromFile(image, bytes, rva, v, i);
        var at: nat :| RawAt(image, i, at) && FileByte(bytes, at + rva, image.sections[i].virtualAddress, v);
        assert InRawData(image, i, rva) && RawAt(image, i, at);
      } else {
        forall i | 0 <= i < |image.sections| ensures !InRaw(image.sections[i], rva) {
          assert !InRawData(image, i, rva);
        }
      }
    }
  }

  /** A byte no binding has the last word on has no binding. */
  lemma {:induction false} NobodyBinds(bindings: seq<Binding>, rva: nat)
    requires forall n: nat :: !BoundBy(bindings, n, rva)
    ensures Unbound(bindings, rva)
  {
    var n := |bindings|;
    while n > 0
      invariant n <= |bindings| && forall j: nat :: n <= j < |bindings| ==> !InSlot(bindings[j], rva)
    {
      n := n - 1;
      assert !BoundBy(bindings, n, rva);
    }
  }

  lemma FromFile(image: Image, bytes: seq<Byte>, rva: nat, v: Byte, i: nat)
    requires SectionsOk(image.sections, image.sizeOfImage) && image.sizeOfImage <= 0xFFFF_FFFF
    requires image.byteCount == |bytes| && image.sizeOfHeaders <= |bytes|
    requires PlacedByte(image, bytes, rva, v) && InRawData(image, i, rva)
    ensures exists at: nat :: RawAt(image, i, at) && FileByte(bytes, at + rva, image.sections[i].virtualAddress, v)
  {
    hide FileOffset, SectionsOk, Located;
    var s := image.sections[i];
    assert InRaw(s, rva);
    Locating(image, false, s.virtualAddress, s.rawSize);
    var o := FileOffset(image, s.virtualAddress, s.rawSize);
    assert RawAt(image, i, o.value) && FileByte(bytes, o.value + rva, s.virtualAddress, v);
  }

  // ---- A loaded image ----

  /** One byte of a loaded image, and what may be done with it. */
  ghost predicate ByteLoaded(s: Memory, image: Image, bytes: seq<Byte>, bindings: seq<Binding>, rva: nat) {
    var p := (image.imageBase + rva) / 4096;
    && p in s.pages && Loadable(s, p) && ImageByte(image, bytes, bindings, rva, LoadPage(s, p)[rva % 4096])
    && !s.pages[p].protection.guard
    && (forall i: nat :: i < |image.sections| && Meets(image.sections[i], rva / 4096) ==>
          s.pages[p].protection.access == Granted(image.sections[i].characteristics))
    && ((forall i: nat :: i < |image.sections| ==> !Meets(image.sections[i], rva / 4096)) ==>
          s.pages[p].protection.access == if HeaderPage(image, rva / 4096) then 0x02 else 0x01)
  }

  /**
   After a load every byte of the image is there: of the last binding over it, else of its section in the file,
   else of the headers, else 0; and its page has the protection its sections ask for.
   */
  lemma LoadedMeans(m: Memory, s: Memory, image: Image, bytes: seq<Byte>, bindings: seq<Binding>, rva: nat)
    requires WellFormed(image) && image.byteCount == |bytes| && image.sizeOfHeaders <= |bytes| && Placeable(image)
    requires LoadedImage(m, s, image) && HoldsImage(s, image, bytes, bindings) && AllBound(image, image.imageBase, bindings)
    requires Agreed(image, |image.sections|) && SectionsHeld(image, |image.sections|) && rva < image.sizeOfImage
    ensures ByteLoaded(s, image, bytes, bindings, rva)
  {
    hide WellFormed, Bound, FinalProtection, Meets, Granted, AllBound, Agreed, SectionsHeld, LoadPage, ImageByte, LoadedByte, HeaderPage;
    WellFormedParts(image);
    FinalMeans(image, rva / 4096);
    LoadedContents(image, bytes, bindings, rva);
    LoadedByteIs(image, bytes, bindings, rva, Bound(image, bytes, bindings, |bindings|)[rva]);
    LoadedPage(m, s, image, bytes, bindings, rva);
  }

  lemma LoadedPage(m: Memory, s: Memory, image: Image, bytes: seq<Byte>, bindings: seq<Binding>, rva: nat)
    requires WellFormed(image) && image.byteCount == |bytes| && image.sizeOfHeaders <= |bytes| && Placeable(image)
    requires LoadedImage(m, s, image) && HoldsImage(s, image, bytes, bindings) && rva < image.sizeOfImage
    ensures var p := (image.imageBase + rva) / 4096;
            && p in s.pages && s.pages[p].protection == FinalProtection(image, rva / 4096)
            && Loadable(s, p) && LoadPage(s, p)[rva % 4096] == Bound(image, bytes, bindings, |bindings|)[rva]
  {
    hide WellFormed, Bound, FinalProtection, LoadPage, LoadedImage, Shows;
    WellFormedParts(image);
    PageAndOffset(image.imageBase, image.sizeOfImage, rva);
    PageProtected(m, s, image, rva / 4096);
    PageShown(s, image.imageBase / 4096, image.sizeOfImage / 4096, Bound(image, bytes, bindings, |bindings|), rva);
  }

  lemma PageAndOffset(base: nat, size: nat, rva: nat)
    requires base % 4096 == 0 && size % 4096 == 0 && rva < size
    ensures (base + rva) / 4096 == base / 4096 + rva / 4096 && rva / 4096 < size / 4096
  {
  }

  lemma PageProtected(m: Memory, s: Memory, image: Image, k: nat)
    requires LoadedImage(m, s, image) && k < image.sizeOfImage / 4096
    ensures var p := image.imageBase / 4096 + k; p in s.pages && s.pages[p].protection == FinalProtection(image, k)
  {
    hide FinalProtection;
    assert InRange(image.imageBase / 4096 + k, image.imageBase / 4096, image.sizeOfImage / 4096);
  }

  lemma PageShown(s: Memory, first: nat, count: nat, content: seq<Byte>, rva: nat)
    requires Shows(s, first, count, content) && rva < |content| && rva / 4096 < count
    ensures Loadable(s, first + rva / 4096) && LoadPage(s, first + rva / 4096)[rva % 4096] == content[rva]
  {
    hide LoadPage;
    assert InRange(first + rva / 4096, first, count);
    assert LoadPage(s, first + rva / 4096) == PageOf(content, rva / 4096);
  }
}

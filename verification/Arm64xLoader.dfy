/**
 Loading an ARM64X image at its preferred base: reserve, commit, copy headers and sections, patch
 bindings, protect; and on any failure after the reservation, release it again.
 */
module Arm64xLoader {
  import opened Options
  import opened GuestMemory
  import opened MemoryInvariants
  import opened MappingCalls
  import opened MappingEffects
  import opened MappingTheorems
  import opened PagedAccess
  import opened MemoryObject
  import LittleEndian
  import Arm64xImage

  datatype LoadStatus =
    | Loaded | BadArgument | ParseError | RelocationRequired | SizeOverflow | AddressConflict | BadSection
    | PermissionConflict | BadBinding | MemoryError

  datatype Binding = Binding(slotRva: nat, value: nat)

  const MAX_BINDINGS := 32
  const MEM_EXECUTE := 0x2000_0000
  const MEM_READ := 0x4000_0000
  const MEM_WRITE := 0x8000_0000

  predicate HasBit(flags: nat, bit: nat)
    requires bit > 0
  {
    flags / bit % 2 == 1
  }

  /** `section_protection`. */
  function SectionProtection(characteristics: nat): nat {
    if HasBit(characteristics, MEM_EXECUTE) then
      if HasBit(characteristics, MEM_WRITE) then EXECUTE_READ_WRITE
      else if HasBit(characteristics, MEM_READ) then EXECUTE_READ else EXECUTE
    else if HasBit(characteristics, MEM_WRITE) then READ_WRITE
    else if HasBit(characteristics, MEM_READ) then READ_ONLY else NO_ACCESS
  }

  lemma ProtectionIsOk(characteristics: nat)
    ensures ProtectionOk(Protection(SectionProtection(characteristics), false))
    ensures SectionProtection(characteristics) != 0
  {
  }

  // ---- A load in progress ----

  /**
   Memory while an image is being loaded: as before outside the image, and inside it one reservation whose
   pages are backed, as far as they are, by storage allocated for them alone.
   */
  ghost predicate Loading(m: Memory, s: Memory, first: nat, count: nat, cells: seq<Fresh>) {
    && Inv(s) && MappedOntoCells(m, s, first, count, cells) && m.generation <= s.generation
    && (forall p: nat :: InRange(p, first, count) ==> s.pages[p].base == first && s.pages[p].size == count)
    && (forall p: nat :: InRange(p, first, |cells|) ==> IsInternal(s, cells[p - first].id))
    && (forall i, j :: 0 <= i < j < |cells| ==> cells[i].id != cells[j].id)
  }

  /** All of the image is plain read-write memory. */
  ghost predicate Writable(s: Memory, first: nat, count: nat) {
    forall p: nat :: InRange(p, first, count) ==> p in s.pages && s.pages[p].protection == Protection(READ_WRITE, false)
  }

  lemma StoreKeepsLoading(m: Memory, s: Memory, first: nat, count: nat, cells: seq<Fresh>, e: Edit)
    requires Loading(m, s, first, count, cells) && |cells| == count && e.Store? && InRange(e.page, first, count)
    ensures Loading(m, Apply(s, e), first, count, cells)
    ensures Writable(s, first, count) ==> Writable(Apply(s, e), first, count)
  {
    hide Inv, Apply, Enabled, MappedOntoCells;
    InvPreserved(s, e);
    StampsAdvance(s, e);
    if Enabled(s, e) {
      hide Overwrite, StoreThrough;
      StoreAllowed(s, e);
      StoreResult(s, e.page, e.offset, e.bytes);
      var b := BackingOf(s, e.page);
      CellOf(m, s, first, count, cells, e.page);
      StoredInPlace(s, Apply(s, e), e.page, b, Overwrite(Contents(s, b), e.offset, e.bytes));
      InPlaceLoading(m, s, Apply(s, e), first, count, cells, e.page);
    } else {
      NotApplied(s, e);
    }
  }

  lemma StampsAdvance(s: Memory, e: Edit)
    ensures s.generation <= Apply(s, e).generation
  {
    hide Apply;
    EditSound(s, e);
  }

  lemma NotApplied(s: Memory, e: Edit)
    requires !Enabled(s, e)
    ensures Apply(s, e) == s
  {
  }

  lemma StoreAllowed(s: Memory, e: Edit)
    requires Enabled(s, e) && e.Store?
    ensures Loadable(s, e.page) && e.offset + |e.bytes| <= PAGE_SIZE
  {
  }

  lemma CellOf(m: Memory, s: Memory, first: nat, count: nat, cells: seq<Fresh>, p: nat)
    requires Loading(m, s, first, count, cells) && |cells| == count && InRange(p, first, count)
    ensures Backed(s, p) && BackingOf(s, p) == cells[p - first].id && IsInternal(s, BackingOf(s, p))
  {
    hide Inv;
  }

  /** Bytes and stamps of one page's own storage changed, nothing else. */
  ghost predicate InPlace(s: Memory, s': Memory, p: nat, b: BackingId) {
    && s'.host == s.host && s'.transactions == s.transactions && p in s.pages && s'.pages.Keys == s.pages.Keys
    && s'.pages[p] == s.pages[p].(generation := s'.pages[p].generation)
    && (forall q: nat :: q in s.pages && q != p ==> s'.pages[q] == s.pages[q])
    && (forall c :: c in s.backings <==> c in s'.backings)
    && (forall c :: c in s.backings && c != b ==> s'.backings[c] == s.backings[c])
    && b in s.backings && IsInternal(s', b) && s'.backings[b].refs == s.backings[b].refs
  }

  lemma StoredInPlace(s: Memory, s': Memory, p: nat, b: BackingId, bytes: PageBytes)
    requires Backed(s, p) && BackingOf(s, p) == b && IsInternal(s, b) && s' == StoreThrough(s, p, bytes)
    ensures InPlace(s, s', p, b)
  {
  }

  lemma InPlaceMapped(m: Memory, s: Memory, s': Memory, first: nat, count: nat, cells: seq<Fresh>, p: nat)
    requires MappedOntoCells(m, s, first, count, cells) && |cells| == count && InRange(p, first, count)
    requires InPlace(s, s', p, cells[p - first].id)
    ensures MappedOntoCells(m, s', first, count, cells)
  {
    var b := cells[p - first].id;
    assert b !in m.backings;
    forall q: nat | q in m.pages ensures !InRange(q, first, count) && s'.pages[q] == m.pages[q] {
      assert q in s.pages && q != p;
    }
    forall c | c in m.backings ensures c in s'.backings && s'.backings[c] == m.backings[c] {
      assert c in s.backings && c != b;
    }
    forall q: nat | InRange(q, first, count)
      ensures q in s'.pages && s'.pages[q].backing == Some(cells[q - first].id)
      ensures cells[q - first].id !in m.backings && cells[q - first].id in s'.backings && s'.backings[cells[q - first].id].refs == 1
    {
      assert q in s.pages;
    }
  }

  lemma InPlaceLoading(m: Memory, s: Memory, s': Memory, first: nat, count: nat, cells: seq<Fresh>, p: nat)
    requires Loading(m, s, first, count, cells) && |cells| == count && InRange(p, first, count) && Inv(s')
    requires InPlace(s, s', p, cells[p - first].id) && s.generation <= s'.generation
    ensures Loading(m, s', first, count, cells)
    ensures Writable(s, first, count) ==> Writable(s', first, count)
  {
    hide Inv, MappedOntoCells, InPlace;
    InPlaceMapped(m, s, s', first, count, cells, p);
    InPlacePages(m, s, s', first, count, cells, p);
  }

  lemma InPlacePages(m: Memory, s: Memory, s': Memory, first: nat, count: nat, cells: seq<Fresh>, p: nat)
    requires Loading(m, s, first, count, cells) && |cells| == count && InRange(p, first, count)
    requires InPlace(s, s', p, cells[p - first].id)
    ensures forall q: nat :: InRange(q, first, count) ==>
              q in s'.pages && q in s.pages && s'.pages[q] == s.pages[q].(generation := s'.pages[q].generation)
    ensures forall q: nat :: InRange(q, first, count) ==> IsInternal(s', cells[q - first].id)
  {
    hide Inv;
    forall q: nat | InRange(q, first, count)
      ensures q in s'.pages && q in s.pages && s'.pages[q] == s.pages[q].(generation := s'.pages[q].generation)
      ensures IsInternal(s', cells[q - first].id)
    {
      assert q in s.pages && IsInternal(s, cells[q - first].id);
    }
  }

  lemma ProtectKeepsLoading(m: Memory, s: Memory, first: nat, count: nat, cells: seq<Fresh>, p: nat, protection: Protection)
    requires Loading(m, s, first, count, cells) && InRange(p, first, count)
    ensures Loading(m, Apply(s, Edit.Protect(p, protection)), first, count, cells)
    ensures p in s.pages && Apply(s, Edit.Protect(p, protection)).pages[p].protection == protection
    ensures forall q: nat :: q in s.pages && q != p ==> Apply(s, Edit.Protect(p, protection)).pages[q] == s.pages[q]
  {
    hide Inv, Apply;
    var s' := Apply(s, Edit.Protect(p, protection));
    InvPreserved(s, Edit.Protect(p, protection));
    OnlyProtected(s, p, protection);
    ProtectedMapped(m, s, s', first, count, cells, p);
  }

  lemma OnlyProtected(s: Memory, p: nat, protection: Protection)
    requires p in s.pages
    ensures var s' := Apply(s, Edit.Protect(p, protection));
            && s' == s.(pages := s'.pages, generation := s.generation + 1) && s'.pages.Keys == s.pages.Keys
            && s'.pages[p] == s.pages[p].(protection := protection, generation := s.generation + 1)
            && (forall q: nat :: q in s.pages && q != p ==> s'.pages[q] == s.pages[q])
  {
  }

  lemma ProtectedMapped(m: Memory, s: Memory, s': Memory, first: nat, count: nat, cells: seq<Fresh>, p: nat)
    requires MappedOntoCells(m, s, first, count, cells) && InRange(p, first, count)
    requires s' == s.(pages := s'.pages, generation := s.generation + 1) && s'.pages.Keys == s.pages.Keys
    requires p in s.pages && s'.pages[p].backing == s.pages[p].backing
    requires forall q: nat :: q in s.pages && q != p ==> s'.pages[q] == s.pages[q]
    ensures MappedOntoCells(m, s', first, count, cells)
  {
  }

  lemma {:induction false} StoresKeepLoading(m: Memory, s: Memory, first: nat, count: nat, cells: seq<Fresh>, edits: seq<Edit>)
    requires Loading(m, s, first, count, cells) && |cells| == count && Writable(s, first, count)
    requires forall i :: 0 <= i < |edits| ==> edits[i].Store? && InRange(edits[i].page, first, count)
    ensures Loading(m, Run(s, edits), first, count, cells) && Writable(Run(s, edits), first, count)
    decreases |edits|
  {
    hide Loading, Writable, Apply;
    if edits != [] {
      StoreKeepsLoading(m, s, first, count, cells, edits[0]);
      StoresKeepLoading(m, Apply(s, edits[0]), first, count, cells, edits[1..]);
    }
  }

  lemma {:induction false} NothingToPromote(s: Memory, first: nat, cells: seq<Fresh>, k: nat)
    requires k <= |cells|
    requires forall p: nat :: InRange(p, first, k) ==> p in s.pages && s.pages[p].protection == Protection(READ_WRITE, false)
    ensures PromoteEdits(s, first, cells, true, k) == []
    decreases k
  {
    if k > 0 {
      assert InRange(first + (k - 1), first, k);
      assert forall p: nat :: InRange(p, first, k - 1) ==> InRange(p, first, k);
      NothingToPromote(s, first, cells, k - 1);
    }
  }

  /** A write inside the image only stores, and needs nothing but working storage. */
  lemma ImageWrite(
    m: Memory, s: Memory, first: nat, count: nat, cells: seq<Fresh>, a: nat, data: seq<Byte>, scratch: bool, spare: Option<seq<Fresh>>)
    requires Loading(m, s, first, count, cells) && |cells| == count && Writable(s, first, count)
    requires first * PAGE_SIZE <= a && a + |data| <= (first + count) * PAGE_SIZE
    requires spare.Some? ==> |spare.value| == Span(a, |data|)
    ensures var plan := AccessPlan(s, a, |data|, Write(data), true, scratch, spare);
            var s' := Run(s, plan.edits);
            && Loading(m, s', first, count, cells) && Writable(s', first, count)
            && (plan.error == Ok && data != [] ==> s' == Run(s, StoreEdits(a, data)))
            && (plan.error == Ok && data == [] ==> s' == s)
            && (scratch && spare.Some? && (first + count) * PAGE_SIZE <= UINT64_MAX && count < MAX_PAGES ==> plan.error == Ok)
  {
    hide Loading, Run, CheckAccess, FirstGuard, PromoteEdits, StoreEdits;
    var from, n := a / PAGE_SIZE, Span(a, |data|);
    var plan := AccessPlan(s, a, |data|, Write(data), true, scratch, spare);
    NoEdits(s);
    InsideImage(first, count, a, |data|);
    assert FirstGuard(s, from, n).None?;
    forall p: nat | InRange(p, from, n) ensures AccessError(s, p, true, false) == Ok {
      CellOf(m, s, first, count, cells, p);
    }
    if plan.error == Ok && data != [] {
      NothingToPromote(s, from, spare.value, n);
      assert plan.edits == StoreEdits(a, data);
      StoresInside(a, data, first, count);
      StoresKeepLoading(m, s, first, count, cells, plan.edits);
    }
  }

  lemma InsideImage(first: nat, count: nat, a: nat, n: nat)
    requires first * PAGE_SIZE <= a && a + n <= (first + count) * PAGE_SIZE
    ensures forall p: nat :: InRange(p, a / PAGE_SIZE, Span(a, n)) ==> InRange(p, first, count)
  {
    if n > 0 {
      assert Span(a, n) == (a + n - 1) / PAGE_SIZE - a / PAGE_SIZE + 1;
    }
  }

  lemma StoresInside(a: nat, data: seq<Byte>, first: nat, count: nat)
    requires forall p: nat :: InRange(p, a / PAGE_SIZE, Span(a, |data|)) ==> InRange(p, first, count)
    ensures var edits := StoreEdits(a, data);
            forall i :: 0 <= i < |edits| ==> edits[i].Store? && InRange(edits[i].page, first, count)
  {
    hide Span;
    forall i | 0 <= i < |StoreEdits(a, data)|
      ensures StoreEdits(a, data)[i].Store? && InRange(StoreEdits(a, data)[i].page, first, count)
    {
      assert InRange(PageAt(a, i), a / PAGE_SIZE, Span(a, |data|));
    }
  }

  lemma ReservedLoading(m: Memory, s: Memory, first: nat, count: nat)
    requires Inv(m) && Inv(s) && ReserveEffect(m, s, first, count, count)
    requires forall p: nat :: InRange(p, first, count) ==> p !in m.pages
    ensures Loading(m, s, first, count, [])
  {
  }

  lemma CommittedPage(m: Memory, s: Memory, s': Memory, first: nat, cells: seq<Fresh>, p: nat)
    requires MappedOntoCells(m, s, first, |cells|, []) && InRange(p, first, |cells|)
    requires s.pages[p].base == first && s.pages[p].size == |cells|
    requires CommitEffect(s, s', first, cells, None, Protection(READ_WRITE, false), |cells|)
    ensures p in s'.pages && s'.pages[p].backing == Some(cells[p - first].id) && s'.pages[p].base == first
    ensures s'.pages[p].size == |cells| && s'.pages[p].protection == Protection(READ_WRITE, false)
    ensures cells[p - first].id in s'.backings
    ensures s'.backings[cells[p - first].id] == Backing(Internal(ZeroPage()), 1, cells[p - first].generation)
  {
    assert s.pages[p].backing.None?;
    assert DataAt(None, p - first) == Internal(ZeroPage());
  }

  lemma CommittedElsewhere(m: Memory, s: Memory, s': Memory, first: nat, cells: seq<Fresh>)
    requires MappedOntoCells(m, s, first, |cells|, [])
    requires CommitEffect(s, s', first, cells, None, Protection(READ_WRITE, false), |cells|)
    ensures SameElsewhere(m, s') && s.generation <= s'.generation
    ensures forall p: nat :: p in s'.pages <==> p in m.pages || InRange(p, first, |cells|)
    ensures forall p: nat :: p in m.pages ==> !InRange(p, first, |cells|) && s'.pages[p] == m.pages[p]
    ensures forall b :: b in m.backings ==> b in s'.backings && s'.backings[b] == m.backings[b]
  {
  }

  lemma CommittedLoading(m: Memory, s: Memory, s': Memory, first: nat, cells: seq<Fresh>)
    requires Inv(s') && Loading(m, s, first, |cells|, [])
    requires forall i :: 0 <= i < |cells| ==> cells[i].id !in m.backings
    requires forall i, j :: 0 <= i < j < |cells| ==> cells[i].id != cells[j].id
    requires CommitEffect(s, s', first, cells, None, Protection(READ_WRITE, false), |cells|)
    ensures Loading(m, s', first, |cells|, cells) && Writable(s', first, |cells|)
  {
    hide Inv, CommitEffect;
    CommittedElsewhere(m, s, s', first, cells);
    forall p: nat | InRange(p, first, |cells|)
      ensures p in s'.pages && s'.pages[p].backing == Some(cells[p - first].id) && s'.pages[p].base == first
      ensures s'.pages[p].size == |cells| && s'.pages[p].protection == Protection(READ_WRITE, false)
      ensures cells[p - first].id in s'.backings
      ensures s'.backings[cells[p - first].id] == Backing(Internal(ZeroPage()), 1, cells[p - first].generation)
    {
      CommittedPage(m, s, s', first, cells, p);
    }
  }

  /** Releasing the image's reservation puts mapping and backings back as they were. */
  lemma ReleaseRestores(m: Memory, s: Memory, first: nat, count: nat, cells: seq<Fresh>)
    requires Inv(m) && Loading(m, s, first, count, cells) && count > 0 && RangeOk(first * PAGE_SIZE, count * PAGE_SIZE)
    ensures var plan := ReleasePlan(s, first * PAGE_SIZE, count * PAGE_SIZE);
            && plan.error == Ok && Run(s, plan.edits) == m.(generation := s.generation) && m.generation <= s.generation
  {
    hide Run, Counted, Stamped, HostsKnown, RemoveEdits, Ascending, CheckPages, SetOf, RemoveEffect;
    var plan := ReleasePlan(s, first * PAGE_SIZE, count * PAGE_SIZE);
    assert forall p: nat :: InRange(p, first, count) ==> p in s.pages;
    assert InRange(first, first, count);
    assert AllMapped(s, first, count);
    RemoveRange(s, first, count);
    RollbackRestores(m, s, Run(s, plan.edits), first, count, cells);
    RemovedElsewhere(s, Run(s, plan.edits), SetOf(Ascending(first, count)));
  }

  lemma RemovedElsewhere(s: Memory, s': Memory, pages: set<nat>)
    requires RemoveEffect(s, s', pages)
    ensures s'.host == s.host && s'.transactions == s.transactions && s'.generation == s.generation
  {
  }

  // ---- What the image shows ----

  /** A byte string with some bytes of it overwritten. */
  function Patched(content: seq<Byte>, at: nat, data: seq<Byte>): (r: seq<Byte>)
    requires at + |data| <= |content|
    ensures |r| == |content|
    ensures forall x :: 0 <= x < |r| ==> r[x] == if at <= x < at + |data| then data[x - at] else content[x]
  {
    content[..at] + data + content[at + |data|..]
  }

  /** The k-th page of a content. */
  function PageOf(content: seq<Byte>, k: nat): (page: PageBytes)
    requires (k + 1) * PAGE_SIZE <= |content|
    ensures forall o :: 0 <= o < PAGE_SIZE ==> page[o] == content[k * PAGE_SIZE + o]
  {
    content[k * PAGE_SIZE..(k + 1) * PAGE_SIZE]
  }

  /** The pages of the image, one after the other, hold this content. */
  ghost predicate Shows(s: Memory, first: nat, count: nat, content: seq<Byte>) {
    && |content| == count * PAGE_SIZE
    && forall p: nat :: InRange(p, first, count) ==> Loadable(s, p) && LoadPage(s, p) == PageOf(content, p - first)
  }

  /** Bytes overwritten inside one page are overwritten in that page alone. */
  lemma PatchedPage(content: seq<Byte>, k: nat, offset: nat, chunk: seq<Byte>, j: nat)
    requires (k + 1) * PAGE_SIZE <= |content| && (j + 1) * PAGE_SIZE <= |content| && offset + |chunk| <= PAGE_SIZE
    ensures PageOf(Patched(content, k * PAGE_SIZE + offset, chunk), j)
         == if j == k then Overwrite(PageOf(content, k), offset, chunk) else PageOf(content, j)
  {
    hide PageOf, Patched;
    var page := PageOf(Patched(content, k * PAGE_SIZE + offset, chunk), j);
    var want := if j == k then Overwrite(PageOf(content, k), offset, chunk) else PageOf(content, j);
    forall o | 0 <= o < PAGE_SIZE ensures page[o] == want[o] {
      assert page[o] == Patched(content, k * PAGE_SIZE + offset, chunk)[j * PAGE_SIZE + o];
    }
  }

  /** Pages of the image share with no other page of it. */
  lemma ImageUnshared(m: Memory, s: Memory, first: nat, count: nat, cells: seq<Fresh>, p: nat, q: nat)
    requires Loading(m, s, first, count, cells) && |cells| == count && InRange(p, first, count) && InRange(q, first, count)
    ensures Loadable(s, p) && Loadable(s, q) && (Shares(s, p, q) <==> p == q)
  {
    hide Inv, LoadPage;
    CellOf(m, s, first, count, cells, p);
    CellOf(m, s, first, count, cells, q);
    assert cells[p - first].id == cells[q - first].id <==> p == q;
  }

  lemma StoreShows(
    m: Memory, s: Memory, first: nat, count: nat, cells: seq<Fresh>, content: seq<Byte>, p: nat, offset: nat, chunk: seq<Byte>)
    requires Loading(m, s, first, count, cells) && |cells| == count && Shows(s, first, count, content)
    requires InRange(p, first, count) && offset + |chunk| <= PAGE_SIZE
    ensures (p - first) * PAGE_SIZE + offset + |chunk| <= |content|
    ensures Shows(Apply(s, Store(p, offset, chunk)), first, count, Patched(content, (p - first) * PAGE_SIZE + offset, chunk))
  {
    hide Loading, Apply, LoadPage, Shares, Patched, PageOf, Overwrite, SameSharing;
    var s' := Apply(s, Store(p, offset, chunk));
    ImageUnshared(m, s, first, count, cells, p, p);
    StoreFacts(s, p, offset, chunk);
    forall q: nat | InRange(q, first, count)
      ensures Loadable(s', q)
           && LoadPage(s', q) == PageOf(Patched(content, (p - first) * PAGE_SIZE + offset, chunk), q - first)
    {
      ImageUnshared(m, s, first, count, cells, p, q);
      SharingLoadable(s, s', q);
      PatchedPage(content, p - first, offset, chunk, q - first);
    }
  }

  lemma PatchedMore(content: seq<Byte>, at: nat, data: seq<Byte>, x: nat, y: nat)
    requires x <= y <= |data| && at + |data| <= |content|
    ensures Patched(Patched(content, at, data[..x]), at + x, data[x..y]) == Patched(content, at, data[..y])
  {
  }

  /** Where the k-th page's part of a write goes. */
  lemma ChunkPlace(first: nat, a: nat, n: nat, k: nat)
    requires first * PAGE_SIZE <= a && k < Span(a, n)
    ensures first <= PageAt(a, k)
    ensures (PageAt(a, k) - first) * PAGE_SIZE + Offset(a, k) == a - first * PAGE_SIZE + Start(a, n, k)
  {
    ChunkFits(a, n, k);
  }

  lemma {:induction false} StoresShow(
    m: Memory, s: Memory, first: nat, count: nat, cells: seq<Fresh>, content: seq<Byte>, a: nat, data: seq<Byte>, k: nat)
    requires Loading(m, s, first, count, cells) && |cells| == count && Writable(s, first, count)
    requires Shows(s, first, count, content) && k <= Span(a, |data|)
    requires first * PAGE_SIZE <= a && a + |data| <= (first + count) * PAGE_SIZE
    ensures Start(a, |data|, k) <= |data| && a - first * PAGE_SIZE + |data| <= |content|
    ensures Shows(Run(s, StoreEdits(a, data)[..k]), first, count,
                  Patched(content, a - first * PAGE_SIZE, data[..Start(a, |data|, k)]))
    decreases k
  {
    hide Loading, Writable, Apply, Shows, Patched, Span, Run, Start, Offset, PageAt;
    var edits, at := StoreEdits(a, data), a - first * PAGE_SIZE;
    ShownLength(s, first, count, content);
    if k == 0 {
      StartNone(a, |data|);
      assert edits[..k] == [];
      NoEdits(s);
      assert Patched(content, at, data[..0]) == content;
    } else {
      var j := k - 1;
      StoresShow(m, s, first, count, cells, content, a, data, j);
      InsideImage(first, count, a, |data|);
      StoresInside(a, data, first, count);
      StoresKeepLoading(m, s, first, count, cells, edits[..j]);
      ChunkFits(a, |data|, j);
      ChunkPlace(first, a, |data|, j);
      RunPrefix(s, edits, k);
      var x, y := Start(a, |data|, j), Start(a, |data|, k);
      assert edits[j] == Store(PageAt(a, j), Offset(a, j), data[x..y]);
      StoreShows(m, Run(s, edits[..j]), first, count, cells, Patched(content, at, data[..x]), PageAt(a, j), Offset(a, j), data[x..y]);
      PatchedMore(content, at, data, x, y);
    }
  }

  lemma StartNone(a: nat, n: nat)
    ensures Start(a, n, 0) == 0
  {
  }

  lemma ShownLength(s: Memory, first: nat, count: nat, content: seq<Byte>)
    requires Shows(s, first, count, content)
    ensures |content| == count * PAGE_SIZE
  {
  }

  /** The whole of a write inside the image. */
  lemma WriteShows(
    m: Memory, s: Memory, first: nat, count: nat, cells: seq<Fresh>, content: seq<Byte>, a: nat, data: seq<Byte>)
    requires Loading(m, s, first, count, cells) && |cells| == count && Writable(s, first, count) && data != []
    requires Shows(s, first, count, content)
    requires first * PAGE_SIZE <= a && a + |data| <= (first + count) * PAGE_SIZE
    ensures a - first * PAGE_SIZE + |data| <= |content|
    ensures Shows(Run(s, StoreEdits(a, data)), first, count, Patched(content, a - first * PAGE_SIZE, data))
  {
    hide Loading, Writable, Shows, Patched, Span, Run, Start;
    var n := Span(a, |data|);
    StoresShow(m, s, first, count, cells, content, a, data, n);
    assert StoreEdits(a, data)[..n] == StoreEdits(a, data);
    SpanSome(a, |data|);
    ChunkFits(a, |data|, n - 1);
    assert data[..Start(a, |data|, n)] == data;
  }

  lemma SpanSome(a: nat, n: nat)
    requires n > 0
    ensures Span(a, n) > 0
  {
  }

  function Zeros(n: nat): seq<Byte> { seq(n, _ => 0) }

  /** What is in the image once headers and the first `n` sections are. */
  function Placed(image: Arm64xImage.Image, bytes: seq<Byte>, n: nat): (content: seq<Byte>)
    requires n <= |image.sections| && image.byteCount == |bytes| && image.sizeOfHeaders <= |bytes|
    requires image.sizeOfHeaders <= image.sizeOfImage && Arm64xImage.SectionsOk(image.sections, image.sizeOfImage)
    ensures |content| == image.sizeOfImage
  {
    if n == 0 then Patched(Zeros(image.sizeOfImage), 0, bytes[..image.sizeOfHeaders])
    else
      var s := image.sections[n - 1];
      var o := Arm64xImage.FileOffset(image, s.virtualAddress, s.rawSize);
      assert Arm64xImage.SectionFits(s, image.sizeOfImage);
      if o.status != Arm64xImage.Ok then Placed(image, bytes, n - 1)
      else Patched(Placed(image, bytes, n - 1), s.virtualAddress, bytes[o.value..o.value + s.rawSize])
  }

  /** And once the first `n` bindings are. */
  function Bound(image: Arm64xImage.Image, bytes: seq<Byte>, bindings: seq<Binding>, n: nat): (content: seq<Byte>)
    requires n <= |bindings| && image.byteCount == |bytes| && image.sizeOfHeaders <= |bytes|
    requires image.sizeOfHeaders <= image.sizeOfImage && Arm64xImage.SectionsOk(image.sections, image.sizeOfImage)
    ensures |content| == image.sizeOfImage
  {
    if n == 0 then Placed(image, bytes, |image.sections|)
    else if bindings[n - 1].slotRva + 8 > image.sizeOfImage then Bound(image, bytes, bindings, n - 1)
    else Patched(Bound(image, bytes, bindings, n - 1), bindings[n - 1].slotRva, LittleEndian.Encode(bindings[n - 1].value, 8))
  }

  predicate InRaw(s: Arm64xImage.Section, rva: nat) {
    s.virtualAddress <= rva < s.virtualAddress + s.rawSize
  }

  predicate InSlot(b: Binding, rva: nat) {
    b.slotRva <= rva < b.slotRva + 8
  }

  /** Outside the raw data of all sections there are the headers, and zeros beyond them. */
  lemma {:induction false} PlacedOutside(image: Arm64xImage.Image, bytes: seq<Byte>, n: nat, rva: nat)
    requires n <= |image.sections| && image.byteCount == |bytes| && image.sizeOfHeaders <= |bytes|
    requires image.sizeOfHeaders <= image.sizeOfImage && Arm64xImage.SectionsOk(image.sections, image.sizeOfImage)
    requires rva < image.sizeOfImage && forall i :: 0 <= i < n ==> !InRaw(image.sections[i], rva)
    ensures Placed(image, bytes, n)[rva] == if rva < image.sizeOfHeaders then bytes[rva] else 0
    decreases n
  {
    hide Patched, Arm64xImage.FileOffset;
    if n > 0 {
      assert Arm64xImage.SectionFits(image.sections[n - 1], image.sizeOfImage);
      assert !InRaw(image.sections[n - 1], rva);
      PlacedOutside(image, bytes, n - 1, rva);
    }
  }

  /** In the raw data of a section there are its bytes of the file; no other section comes over them. */
  lemma {:induction false} PlacedInside(image: Arm64xImage.Image, bytes: seq<Byte>, n: nat, i: nat, rva: nat)
    requires i < n <= |image.sections| && image.byteCount == |bytes| && image.sizeOfHeaders <= |bytes|
    requires image.sizeOfHeaders <= image.sizeOfImage && Arm64xImage.SectionsOk(image.sections, image.sizeOfImage)
    requires rva < image.sizeOfImage && InRaw(image.sections[i], rva)
    requires var s := image.sections[i]; Arm64xImage.FileOffset(image, s.virtualAddress, s.rawSize).status == Arm64xImage.Ok
    ensures var s := image.sections[i]; var o := Arm64xImage.FileOffset(image, s.virtualAddress, s.rawSize);
            Placed(image, bytes, n)[rva] == bytes[o.value + (rva - s.virtualAddress)]
    decreases n
  {
    hide Patched, Arm64xImage.FileOffset;
    assert Arm64xImage.SectionFits(image.sections[n - 1], image.sizeOfImage);
    if i < n - 1 {
      PlacedInside(image, bytes, n - 1, i, rva);
      assert Arm64xImage.SectionEnd(image.sections[i]) <= image.sections[n - 1].virtualAddress;
    }
  }

  /** Outside the slots of the bindings from `n` on nothing changes any more, and the last one to reach a byte decides it. */
  lemma {:induction false} BoundAt(image: Arm64xImage.Image, bytes: seq<Byte>, bindings: seq<Binding>, k: nat, n: nat, rva: nat)
    requires k <= n <= |bindings| && image.byteCount == |bytes| && image.sizeOfHeaders <= |bytes|
    requires image.sizeOfHeaders <= image.sizeOfImage && Arm64xImage.SectionsOk(image.sections, image.sizeOfImage)
    requires rva < image.sizeOfImage && forall j :: k <= j < n ==> !InSlot(bindings[j], rva)
    ensures Bound(image, bytes, bindings, n)[rva] == Bound(image, bytes, bindings, k)[rva]
    ensures k > 0 && InSlot(bindings[k - 1], rva) && bindings[k - 1].slotRva + 8 <= image.sizeOfImage ==>
              Bound(image, bytes, bindings, n)[rva] == LittleEndian.Encode(bindings[k - 1].value, 8)[rva - bindings[k - 1].slotRva]
    decreases n
  {
    hide Patched, Placed;
    if k < n {
      assert !InSlot(bindings[n - 1], rva);
      BoundAt(image, bytes, bindings, k, n - 1, rva);
    }
  }

  /** The byte at an address that no binding decides: of the section whose raw data it is in, of the headers, or 0. */
  ghost predicate PlacedByte(image: Arm64xImage.Image, bytes: seq<Byte>, rva: nat, v: Byte)
    requires image.byteCount == |bytes| && image.sizeOfHeaders <= |bytes|
  {
    && (forall i :: 0 <= i < |image.sections| && InRaw(image.sections[i], rva) ==>
          var s := image.sections[i]; var o := Arm64xImage.FileOffset(image, s.virtualAddress, s.rawSize);
          o.status == Arm64xImage.Ok && v == bytes[o.value + (rva - s.virtualAddress)])
    && ((forall i :: 0 <= i < |image.sections| ==> !InRaw(image.sections[i], rva)) ==>
          v == if rva < image.sizeOfHeaders then bytes[rva] else 0)
  }

  ghost predicate LastToBind(bindings: seq<Binding>, n: nat, rva: nat) {
    n < |bindings| && InSlot(bindings[n], rva) && forall j :: n < j < |bindings| ==> !InSlot(bindings[j], rva)
  }

  ghost predicate Unbound(bindings: seq<Binding>, rva: nat) {
    forall n :: 0 <= n < |bindings| ==> !InSlot(bindings[n], rva)
  }

  /** The byte a loaded image has at an address: of the last binding whose slot covers it, else what was placed there. */
  ghost predicate LoadedByte(image: Arm64xImage.Image, bytes: seq<Byte>, bindings: seq<Binding>, rva: nat, v: Byte)
    requires image.byteCount == |bytes| && image.sizeOfHeaders <= |bytes|
  {
    && (forall n: nat :: LastToBind(bindings, n, rva) ==> v == LittleEndian.Encode(bindings[n].value, 8)[rva - bindings[n].slotRva])
    && (Unbound(bindings, rva) ==> PlacedByte(image, bytes, rva, v))
  }

  /** What a loaded image shows, byte by byte. */
  lemma LoadedContents(image: Arm64xImage.Image, bytes: seq<Byte>, bindings: seq<Binding>, rva: nat)
    requires Arm64xImage.WellFormed(image) && image.byteCount == |bytes| && image.sizeOfHeaders <= |bytes|
    requires image.sizeOfHeaders <= image.sizeOfImage && rva < image.sizeOfImage
    requires SectionsHeld(image, |image.sections|)
    requires AllBound(image, image.imageBase, bindings)
    ensures LoadedByte(image, bytes, bindings, rva, Bound(image, bytes, bindings, |bindings|)[rva])
  {
    hide Bound, Placed, PlacedByte, SectionsHeld, LittleEndian.Encode, LastToBind, Unbound, BindingOk, InSlot, Arm64xImage.FileOffset,
         Arm64xImage.CodeRangesOk, Arm64xImage.EntryRangesOk, Arm64xImage.RedirectionsOk, Arm64xImage.SectionsOk;
    var n := |bindings|;
    forall k: nat | LastToBind(bindings, k, rva)
      ensures k < n && bindings[k].slotRva <= rva < bindings[k].slotRva + 8
      ensures Bound(image, bytes, bindings, n)[rva] == LittleEndian.Encode(bindings[k].value, 8)[rva - bindings[k].slotRva]
    {
      Binds(bindings, k, rva);
      SlotInside(image, bindings, k);
      BoundAt(image, bytes, bindings, k + 1, n, rva);
    }
    if Unbound(bindings, rva) {
      BindsNot(bindings, rva);
      BoundAt(image, bytes, bindings, 0, n, rva);
      NothingBound(image, bytes, bindings);
      PlacedContents(image, bytes, rva);
    }
  }

  lemma Binds(bindings: seq<Binding>, n: nat, rva: nat)
    requires LastToBind(bindings, n, rva)
    ensures n < |bindings| && InSlot(bindings[n], rva) && bindings[n].slotRva <= rva < bindings[n].slotRva + 8
    ensures forall j :: n + 1 <= j < |bindings| ==> !InSlot(bindings[j], rva)
  {
  }

  lemma BindsNot(bindings: seq<Binding>, rva: nat)
    requires Unbound(bindings, rva)
    ensures forall j :: 0 <= j < |bindings| ==> !InSlot(bindings[j], rva)
  {
  }

  lemma PlacedContents(image: Arm64xImage.Image, bytes: seq<Byte>, rva: nat)
    requires image.byteCount == |bytes| && image.sizeOfHeaders <= |bytes|
    requires image.sizeOfHeaders <= image.sizeOfImage && rva < image.sizeOfImage
    requires Arm64xImage.SectionsOk(image.sections, image.sizeOfImage) && SectionsHeld(image, |image.sections|)
    ensures PlacedByte(image, bytes, rva, Placed(image, bytes, |image.sections|)[rva])
  {
    hide Placed, Arm64xImage.FileOffset, Arm64xImage.SectionsOk;
    forall i | 0 <= i < |image.sections| && InRaw(image.sections[i], rva)
      ensures var s := image.sections[i]; var o := Arm64xImage.FileOffset(image, s.virtualAddress, s.rawSize);
              o.status == Arm64xImage.Ok && Placed(image, bytes, |image.sections|)[rva] == bytes[o.value + (rva - s.virtualAddress)]
    {
      assert SectionHeld(image, i);
      PlacedInside(image, bytes, |image.sections|, i, rva);
    }
    if forall i :: 0 <= i < |image.sections| ==> !InRaw(image.sections[i], rva) {
      PlacedOutside(image, bytes, |image.sections|, rva);
    }
  }

  lemma NothingBound(image: Arm64xImage.Image, bytes: seq<Byte>, bindings: seq<Binding>)
    requires image.byteCount == |bytes| && image.sizeOfHeaders <= |bytes|
    requires image.sizeOfHeaders <= image.sizeOfImage && Arm64xImage.SectionsOk(image.sections, image.sizeOfImage)
    ensures Bound(image, bytes, bindings, 0) == Placed(image, bytes, |image.sections|)
  {
  }

  /** The file holds the raw data of the first `n` sections. */
  ghost predicate SectionsHeld(image: Arm64xImage.Image, n: nat)
    requires n <= |image.sections|
  {
    forall i :: 0 <= i < n ==> SectionHeld(image, i)
  }

  lemma SlotInside(image: Arm64xImage.Image, bindings: seq<Binding>, n: nat)
    requires Arm64xImage.WellFormed(image) && n < |bindings| && BindingOk(image, image.imageBase, bindings, n)
    ensures bindings[n].slotRva + 8 <= image.sizeOfImage
  {
    hide HasBit;
    var i :| 0 <= i < |image.sections| && HoldsSlot(image.sections[i], bindings[n].slotRva)
             && !HasBit(image.sections[i].characteristics, MEM_EXECUTE);
    SectionInside(image, i);
  }

  /** A fresh page is all zeros. */
  lemma CommittedShows(m: Memory, s: Memory, s': Memory, first: nat, cells: seq<Fresh>)
    requires Inv(s') && Loading(m, s, first, |cells|, []) && Loading(m, s', first, |cells|, cells)
    requires CommitEffect(s, s', first, cells, None, Protection(READ_WRITE, false), |cells|)
    ensures Shows(s', first, |cells|, Zeros(|cells| * PAGE_SIZE))
  {
    hide Inv, Loading;
    forall p: nat | InRange(p, first, |cells|)
      ensures Loadable(s', p) && LoadPage(s', p) == PageOf(Zeros(|cells| * PAGE_SIZE), p - first)
    {
      FreshPage(m, s, s', first, cells, p);
      assert PageOf(Zeros(|cells| * PAGE_SIZE), p - first) == ZeroPage();
    }
  }

  lemma FreshPage(m: Memory, s: Memory, s': Memory, first: nat, cells: seq<Fresh>, p: nat)
    requires Loading(m, s, first, |cells|, []) && Loading(m, s', first, |cells|, cells) && InRange(p, first, |cells|)
    requires CommitEffect(s, s', first, cells, None, Protection(READ_WRITE, false), |cells|)
    ensures Loadable(s', p) && LoadPage(s', p) == ZeroPage()
  {
    hide Inv;
    assert s.pages[p].backing.None?;
    assert DataAt(None, p - first) == Internal(ZeroPage());
  }

  // ---- Protections ----

  function PagesFor(size: nat): nat { (size + PAGE_SIZE - 1) / PAGE_SIZE }

  predicate Touches(s: Arm64xImage.Section, k: nat) {
    s.virtualAddress / PAGE_SIZE <= k < PagesFor(Arm64xImage.SectionEnd(s))
  }

  /** The protection of the k-th page as far as headers and the first `n` sections decide it; 0 if none does. */
  function Decided(image: Arm64xImage.Image, n: nat, k: nat): nat
    requires n <= |image.sections|
  {
    if n > 0 && Touches(image.sections[n - 1], k) then SectionProtection(image.sections[n - 1].characteristics)
    else if n > 0 then Decided(image, n - 1, k)
    else if k < PagesFor(image.sizeOfHeaders) then READ_ONLY
    else 0
  }

  /** Everything that touches a page agrees on its protection. */
  ghost predicate Agreed(image: Arm64xImage.Image, n: nat)
    requires n <= |image.sections|
  {
    forall i, k :: 0 <= i < n && 0 <= k && Touches(image.sections[i], k) ==>
      && (k < PagesFor(image.sizeOfHeaders) ==> SectionProtection(image.sections[i].characteristics) == READ_ONLY)
      && (forall j :: 0 <= j < i && Touches(image.sections[j], k) ==>
            SectionProtection(image.sections[i].characteristics) == SectionProtection(image.sections[j].characteristics))
  }

  /** A section's protection is the one its pages already have, wherever they have one. */
  ghost predicate SectionAgrees(image: Arm64xImage.Image, n: nat)
    requires n < |image.sections|
  {
    forall k :: 0 <= k && Touches(image.sections[n], k) ==>
      Decided(image, n, k) == 0 || Decided(image, n, k) == SectionProtection(image.sections[n].characteristics)
  }

  lemma {:induction false} DecidedHeaders(image: Arm64xImage.Image, n: nat, k: nat)
    requires n <= |image.sections| && k < PagesFor(image.sizeOfHeaders)
    requires forall i :: 0 <= i < n ==> SectionAgrees(image, i)
    ensures Decided(image, n, k) == READ_ONLY
    decreases n
  {
    hide SectionProtection, Touches;
    if n > 0 {
      assert SectionAgrees(image, n - 1);
      DecidedHeaders(image, n - 1, k);
    }
  }

  lemma {:induction false} DecidedCovers(image: Arm64xImage.Image, n: nat, j: nat, k: nat)
    requires j < n <= |image.sections| && Touches(image.sections[j], k)
    requires forall i :: 0 <= i < n ==> SectionAgrees(image, i)
    ensures Decided(image, n, k) == SectionProtection(image.sections[j].characteristics)
    decreases n
  {
    hide SectionProtection, Touches;
    if j < n - 1 {
      assert SectionAgrees(image, n - 1);
      DecidedCovers(image, n - 1, j, k);
      ProtectionIsOk(image.sections[j].characteristics);
    }
  }

  /** Who decided a page's protection. */
  lemma {:induction false} DecidedBy(image: Arm64xImage.Image, n: nat, k: nat)
    requires n <= |image.sections|
    ensures || Decided(image, n, k) == 0
            || (k < PagesFor(image.sizeOfHeaders) && Decided(image, n, k) == READ_ONLY)
            || exists j :: 0 <= j < n && Touches(image.sections[j], k)
                           && Decided(image, n, k) == SectionProtection(image.sections[j].characteristics)
    decreases n
  {
    hide SectionProtection, Touches;
    if n > 0 && !Touches(image.sections[n - 1], k) {
      DecidedBy(image, n - 1, k);
    }
  }

  /** Section by section nothing conflicts with what is marked already, exactly when all agree wherever two meet. */
  lemma AgreedExactly(image: Arm64xImage.Image, n: nat)
    requires n <= |image.sections|
    ensures (forall i :: 0 <= i < n ==> SectionAgrees(image, i)) <==> Agreed(image, n)
  {
    hide SectionProtection, Touches, Decided;
    if forall i :: 0 <= i < n ==> SectionAgrees(image, i) {
      forall i, k | 0 <= i < n && 0 <= k && Touches(image.sections[i], k)
        ensures k < PagesFor(image.sizeOfHeaders) ==> SectionProtection(image.sections[i].characteristics) == READ_ONLY
        ensures forall j :: 0 <= j < i && Touches(image.sections[j], k) ==>
                  SectionProtection(image.sections[i].characteristics) == SectionProtection(image.sections[j].characteristics)
      {
        AgreesWithEarlier(image, n, i, k);
      }
    }
    if Agreed(image, n) {
      forall i | 0 <= i < n ensures SectionAgrees(image, i) {
        forall k | 0 <= k && Touches(image.sections[i], k)
          ensures Decided(image, i, k) == 0 || Decided(image, i, k) == SectionProtection(image.sections[i].characteristics)
        {
          DecidedBy(image, i, k);
        }
      }
    }
  }

  lemma AgreesWithEarlier(image: Arm64xImage.Image, n: nat, i: nat, k: nat)
    requires i < n <= |image.sections| && Touches(image.sections[i], k)
    requires forall j :: 0 <= j < n ==> SectionAgrees(image, j)
    ensures k < PagesFor(image.sizeOfHeaders) ==> SectionProtection(image.sections[i].characteristics) == READ_ONLY
    ensures forall j :: 0 <= j < i && Touches(image.sections[j], k) ==>
              SectionProtection(image.sections[i].characteristics) == SectionProtection(image.sections[j].characteristics)
  {
    hide SectionProtection, Touches, Decided, SectionAgrees;
    DecidedCovers(image, n, i, k);
    if k < PagesFor(image.sizeOfHeaders) {
      DecidedHeaders(image, n, k);
    }
    forall j | 0 <= j < i && Touches(image.sections[j], k)
      ensures SectionProtection(image.sections[i].characteristics) == SectionProtection(image.sections[j].characteristics)
    {
      DecidedCovers(image, n, j, k);
    }
  }

  /** The protection a loaded page ends up with. */
  function FinalProtection(image: Arm64xImage.Image, k: nat): Protection {
    var p := Decided(image, |image.sections|, k);
    Protection(if p == 0 then NO_ACCESS else p, false)
  }

  lemma {:induction false} DecidedOk(image: Arm64xImage.Image, n: nat, k: nat)
    requires n <= |image.sections|
    ensures Decided(image, n, k) != 0 ==> ProtectionOk(Protection(Decided(image, n, k), false))
    decreases n
  {
    if n > 0 {
      ProtectionIsOk(image.sections[n - 1].characteristics);
      DecidedOk(image, n - 1, k);
    }
  }

  // ---- What becomes of a load ----

  predicate SectionHeld(image: Arm64xImage.Image, n: nat)
    requires n < |image.sections|
  {
    var s := image.sections[n];
    s.rawSize == 0 || Arm64xImage.FileOffset(image, s.virtualAddress, s.rawSize).status == Arm64xImage.Ok
  }

  /** What the first bad one of the first `n` sections has against the load. */
  ghost function SectionsVerdict(image: Arm64xImage.Image, n: nat): LoadStatus
    requires n <= |image.sections|
  {
    if n == 0 then Loaded
    else if SectionsVerdict(image, n - 1) != Loaded then SectionsVerdict(image, n - 1)
    else if !SectionAgrees(image, n - 1) then PermissionConflict
    else if !SectionHeld(image, n - 1) then BadSection
    else Loaded
  }

  lemma {:induction false} VerdictStays(image: Arm64xImage.Image, n: nat, k: nat)
    requires n <= k <= |image.sections| && SectionsVerdict(image, n) != Loaded
    ensures SectionsVerdict(image, k) == SectionsVerdict(image, n)
    decreases k
  {
    hide SectionAgrees, SectionHeld;
    if n < k {
      VerdictStays(image, n, k - 1);
    }
  }

  lemma {:induction false} SectionsPass(image: Arm64xImage.Image, n: nat)
    requires n <= |image.sections|
    ensures SectionsVerdict(image, n) == Loaded <==> forall i :: 0 <= i < n ==> SectionAgrees(image, i) && SectionHeld(image, i)
    decreases n
  {
    hide SectionAgrees, SectionHeld;
    if n > 0 {
      SectionsPass(image, n - 1);
    }
  }

  ghost predicate AllBound(image: Arm64xImage.Image, base: nat, bindings: seq<Binding>) {
    forall n :: 0 <= n < |bindings| ==> BindingOk(image, base, bindings, n)
  }

  /** Sections first, then bindings. */
  ghost function FillVerdict(image: Arm64xImage.Image, bindings: seq<Binding>): LoadStatus {
    if SectionsVerdict(image, |image.sections|) != Loaded then SectionsVerdict(image, |image.sections|)
    else if !AllBound(image, image.imageBase, bindings) then BadBinding
    else Loaded
  }

  /** What becomes of a load that is not refused storage: `room` and `reserved` say whether table and reservation can be had. */
  ghost function Verdict(image: Arm64xImage.Image, imageBase: nat, bindings: seq<Binding>, room: bool, reserved: bool): LoadStatus {
    if |bindings| > MAX_BINDINGS then BadArgument
    else if imageBase != image.imageBase then RelocationRequired
    else if !Loadable64(image) then SizeOverflow
    else if !room then MemoryError
    else if !reserved then AddressConflict
    else if imageBase == 0 then MemoryError
    else FillVerdict(image, bindings)
  }

  /**
   An image can be loaded exactly when it is asked for where it wants to be, there is room for it, all that covers a
   page agrees on its protection, the file holds its sections, and the bindings are in order.
   */
  lemma LoadableExactly(image: Arm64xImage.Image, imageBase: nat, bindings: seq<Binding>, room: bool, reserved: bool)
    ensures Verdict(image, imageBase, bindings, room, reserved) == Loaded <==>
              && |bindings| <= MAX_BINDINGS && imageBase == image.imageBase != 0 && Loadable64(image) && room && reserved
              && Agreed(image, |image.sections|) && SectionsHeld(image, |image.sections|)
              && AllBound(image, imageBase, bindings)
  {
    hide SectionAgrees, Agreed, AllBound, SectionsVerdict;
    SectionsPass(image, |image.sections|);
    AgreedExactly(image, |image.sections|);
  }

  /** Why a load was refused. */
  lemma RefusedFor(image: Arm64xImage.Image, bindings: seq<Binding>)
    ensures FillVerdict(image, bindings) == PermissionConflict ==> !Agreed(image, |image.sections|)
    ensures FillVerdict(image, bindings) == BadSection ==> !SectionsHeld(image, |image.sections|)
    ensures FillVerdict(image, bindings) == BadBinding ==> !AllBound(image, image.imageBase, bindings)
  {
    hide SectionAgrees, Agreed, AllBound;
    AgreedExactly(image, |image.sections|);
    SectionsRefused(image, |image.sections|);
  }

  lemma {:induction false} SectionsRefused(image: Arm64xImage.Image, n: nat)
    requires n <= |image.sections|
    ensures SectionsVerdict(image, n) in {Loaded, PermissionConflict, BadSection}
    ensures SectionsVerdict(image, n) == PermissionConflict ==> exists i :: 0 <= i < n && !SectionAgrees(image, i)
    ensures SectionsVerdict(image, n) == BadSection ==> exists i :: 0 <= i < n && !SectionHeld(image, i)
    decreases n
  {
    hide SectionAgrees, SectionHeld;
    if n > 0 {
      SectionsRefused(image, n - 1);
    }
  }

  // ---- The steps of a load ----

  /** Backings that are not in use, as an allocator would give them. */
  method FreshCells(memory: GemMemory, n: nat) returns (cells: seq<Fresh>)
    requires memory.Valid()
    ensures |cells| == n && Allocated(memory.State(), cells)
  {
    var top: nat := 0;
    var rest := memory.backings.Keys;
    while rest != {}
      invariant rest <= memory.backings.Keys
      invariant forall b :: b in memory.backings && b !in rest ==> b < top
      decreases rest
    {
      var b :| b in rest;
      if b >= top {
        top := b + 1;
      }
      rest := rest - {b};
    }
    var stamp: nat := *;
    if stamp > memory.nextGeneration {
      stamp := 0;
    }
    cells := seq(n, i requires 0 <= i < n => Fresh(top + i, stamp));
  }

  /** A write into the image.  Whether it succeeds is up to the allocator, unless there is a `supply` of storage. */
  method WriteImage(
    memory: GemMemory, ghost m: Memory, first: nat, count: nat, ghost cells: seq<Fresh>, ghost content: seq<Byte>, a: nat,
    data: seq<Byte>, supply: bool)
    returns (ok: bool)
    requires memory.Valid() && Loading(m, memory.State(), first, count, cells) && |cells| == count
    requires Writable(memory.State(), first, count)
    requires first * PAGE_SIZE <= a && a + |data| <= (first + count) * PAGE_SIZE && Shows(memory.State(), first, count, content)
    modifies memory`nextGeneration, memory`backings, memory`host, memory.table.Repr`value
    ensures memory.Valid() && Loading(m, memory.State(), first, count, cells) && Writable(memory.State(), first, count)
    ensures a - first * PAGE_SIZE + |data| <= |content|
    ensures ok ==> Shows(memory.State(), first, count, Patched(content, a - first * PAGE_SIZE, data))
    ensures supply && (first + count) * PAGE_SIZE <= UINT64_MAX && count < MAX_PAGES ==> ok
  {
    hide Run, Writable, Span, MappedOntoCells, Inv, Loading, Shows, Patched, AccessPlan, GemMemory.State, GemMemory.Valid;
    ShownLength(memory.State(), first, count, content);
    LoadingInv(m, memory.State(), first, count, cells);
    ghost var s := memory.State();
    var spare := FreshCells(memory, Span(a, |data|));
    var grants := seq(|spare|, _ => true);
    var scratch: bool := *;
    scratch := scratch || supply;
    ImageWrite(m, s, first, count, cells, a, data, scratch, Some(spare));
    if data != [] {
      WriteShows(m, s, first, count, cells, content, a, data);
    } else {
      PatchedNothing(content, a - first * PAGE_SIZE, data);
    }
    var e, read := memory.AccessMemory(a, |data|, Write(data), true, scratch, grants, spare);
    ok := e == Ok;
  }

  lemma LoadingInv(m: Memory, s: Memory, first: nat, count: nat, cells: seq<Fresh>)
    requires Loading(m, s, first, count, cells)
    ensures Inv(s)
  {
  }

  lemma PatchedNothing(content: seq<Byte>, at: nat, data: seq<Byte>)
    requires at <= |content| && data == []
    ensures Patched(content, at, data) == content
  {
  }

  /** Marks the pages of a section, unless one is already marked otherwise. */
  method MarkSection(image: Arm64xImage.Image, n: nat, protections: array<nat>) returns (ok: bool)
    requires n < |image.sections| && Arm64xImage.SectionEnd(image.sections[n]) <= protections.Length * PAGE_SIZE
    requires forall k :: 0 <= k < protections.Length ==> protections[k] == Decided(image, n, k)
    modifies protections
    ensures ok ==> forall k :: 0 <= k < protections.Length ==> protections[k] == Decided(image, n + 1, k)
    ensures ok <==> SectionAgrees(image, n)
  {
    var section := image.sections[n];
    var protection := SectionProtection(section.characteristics);
    var from, end := section.virtualAddress / PAGE_SIZE, PagesFor(Arm64xImage.SectionEnd(section));
    var k := from;
    while k < end
      invariant from <= k && (from <= end ==> k <= end)
      invariant forall i :: from <= i < k && i < protections.Length ==>
                  protections[i] == protection && (Decided(image, n, i) == 0 || Decided(image, n, i) == protection)
      invariant forall i :: 0 <= i < protections.Length && !(from <= i < k) ==> protections[i] == Decided(image, n, i)
      decreases end - k
    {
      if protections[k] != 0 && protections[k] != protection {
        assert Touches(section, k);
        return false;
      }
      protections[k] := protection;
      k := k + 1;
    }
    ok := true;
  }

  lemma HasSections(image: Arm64xImage.Image)
    requires Arm64xImage.WellFormed(image)
    ensures Arm64xImage.SectionsOk(image.sections, image.sizeOfImage)
  {
  }

  /** Headers, then section after section: protections noted, contents copied. */
  method CopyImage(
    memory: GemMemory, ghost m: Memory, image: Arm64xImage.Image, bytes: seq<Byte>, first: nat, ghost cells: seq<Fresh>,
    protections: array<nat>, supply: bool) returns (status: LoadStatus)
    requires memory.Valid() && Arm64xImage.WellFormed(image) && image.byteCount == |bytes| && image.sizeOfHeaders <= |bytes|
    requires image.sizeOfHeaders <= image.sizeOfImage == |cells| * PAGE_SIZE && protections.Length == |cells|
    requires Loading(m, memory.State(), first, |cells|, cells) && Writable(memory.State(), first, |cells|)
    requires Shows(memory.State(), first, |cells|, Zeros(image.sizeOfImage)) && (first + |cells|) * PAGE_SIZE <= UINT64_MAX
    requires forall k :: 0 <= k < protections.Length ==> protections[k] == Decided(image, 0, k)
    modifies memory`nextGeneration, memory`backings, memory`host, memory.table.Repr`value, protections
    ensures memory.Valid() && Loading(m, memory.State(), first, |cells|, cells) && Writable(memory.State(), first, |cells|)
    ensures status == Loaded ==>
              && Shows(memory.State(), first, |cells|, Placed(image, bytes, |image.sections|))
              && forall k :: 0 <= k < protections.Length ==> protections[k] == Decided(image, |image.sections|, k)
    ensures status in {Loaded, PermissionConflict, BadSection, MemoryError}
    ensures supply || status in {Loaded, PermissionConflict} ==> status == SectionsVerdict(image, |image.sections|)
  {
    hide Loading, Writable, Decided, Arm64xImage.WellFormed, Arm64xImage.SectionEnd, Touches, SectionProtection, Shows, Patched,
         Arm64xImage.SectionsOk, SectionsHeld,
         GemMemory.Valid, GemMemory.State;
    HasSections(image);
    HeadersPlaced(image, bytes);
    var base := first * PAGE_SIZE;
    SizeInPages(image, protections.Length);
    var ok := WriteImage(
      memory, m, first, protections.Length, cells, Zeros(image.sizeOfImage), base, bytes[..image.sizeOfHeaders], supply);
    if !ok {
      return MemoryError;
    }
    status := CopySections(memory, m, image, bytes, first, cells, protections, supply);
  }

  /** Section after section: protections noted, contents copied. */
  method CopySections(
    memory: GemMemory, ghost m: Memory, image: Arm64xImage.Image, bytes: seq<Byte>, first: nat, ghost cells: seq<Fresh>,
    protections: array<nat>, supply: bool) returns (status: LoadStatus)
    requires memory.Valid() && Arm64xImage.WellFormed(image) && image.byteCount == |bytes| && image.sizeOfHeaders <= |bytes|
    requires image.sizeOfHeaders <= image.sizeOfImage == |cells| * PAGE_SIZE && protections.Length == |cells|
    requires Loading(m, memory.State(), first, |cells|, cells) && Writable(memory.State(), first, |cells|)
    requires Shows(memory.State(), first, |cells|, Placed(image, bytes, 0)) && (first + |cells|) * PAGE_SIZE <= UINT64_MAX
    requires forall k :: 0 <= k < protections.Length ==> protections[k] == Decided(image, 0, k)
    modifies memory`nextGeneration, memory`backings, memory`host, memory.table.Repr`value, protections
    ensures memory.Valid() && Loading(m, memory.State(), first, |cells|, cells) && Writable(memory.State(), first, |cells|)
    ensures status == Loaded ==>
              && Shows(memory.State(), first, |cells|, Placed(image, bytes, |image.sections|))
              && forall k :: 0 <= k < protections.Length ==> protections[k] == Decided(image, |image.sections|, k)
    ensures status in {Loaded, PermissionConflict, BadSection, MemoryError}
    ensures supply || status in {Loaded, PermissionConflict} ==> status == SectionsVerdict(image, |image.sections|)
  {
    hide Loading, Writable, Decided, Arm64xImage.WellFormed, Arm64xImage.SectionEnd, Touches, SectionProtection, Shows, Patched, Placed,
         Arm64xImage.SectionsOk, SectionsVerdict, SectionAgrees, SectionHeld, GemMemory.Valid, GemMemory.State;
    HasSections(image);
    NoVerdict(image);
    for n := 0 to |image.sections|
      invariant memory.Valid() && Loading(m, memory.State(), first, |cells|, cells) && Writable(memory.State(), first, |cells|)
      invariant Shows(memory.State(), first, |cells|, Placed(image, bytes, n)) && SectionsVerdict(image, n) == Loaded
      invariant forall k :: 0 <= k < protections.Length ==> protections[k] == Decided(image, n, k)
    {
      status := PlaceSection(memory, m, image, bytes, n, first, cells, protections, supply);
      NextVerdict(image, n);
      if status != Loaded {
        if supply || status == PermissionConflict {
          VerdictStays(image, n + 1, |image.sections|);
        }
        return;
      }
    }
    status := Loaded;
  }

  lemma NoVerdict(image: Arm64xImage.Image)
    ensures SectionsVerdict(image, 0) == Loaded
  {
  }

  lemma NextVerdict(image: Arm64xImage.Image, n: nat)
    requires n < |image.sections|
    ensures SectionsVerdict(image, n) == Loaded ==>
              SectionsVerdict(image, n + 1) == if !SectionAgrees(image, n) then PermissionConflict
                                               else if !SectionHeld(image, n) then BadSection else Loaded
  {
    hide SectionAgrees, SectionHeld;
  }

  lemma SizeInPages(image: Arm64xImage.Image, count: nat)
    requires Arm64xImage.WellFormed(image) && image.sizeOfImage == count * PAGE_SIZE
    ensures count < MAX_PAGES
  {
  }

  lemma HeadersPlaced(image: Arm64xImage.Image, bytes: seq<Byte>)
    requires image.byteCount == |bytes| && image.sizeOfHeaders <= |bytes|
    requires image.sizeOfHeaders <= image.sizeOfImage && Arm64xImage.SectionsOk(image.sections, image.sizeOfImage)
    ensures Placed(image, bytes, 0) == Patched(Zeros(image.sizeOfImage), 0, bytes[..image.sizeOfHeaders])
  {
  }

  method PlaceSection(
    memory: GemMemory, ghost m: Memory, image: Arm64xImage.Image, bytes: seq<Byte>, n: nat, first: nat, ghost cells: seq<Fresh>,
    protections: array<nat>, supply: bool) returns (status: LoadStatus)
    requires memory.Valid() && Arm64xImage.WellFormed(image) && image.byteCount == |bytes| && n < |image.sections|
    requires image.sizeOfHeaders <= |bytes| && image.sizeOfHeaders <= image.sizeOfImage
    requires image.sizeOfImage == |cells| * PAGE_SIZE && protections.Length == |cells|
    requires Loading(m, memory.State(), first, |cells|, cells) && Writable(memory.State(), first, |cells|)
    requires Shows(memory.State(), first, |cells|, Placed(image, bytes, n)) && (first + |cells|) * PAGE_SIZE <= UINT64_MAX
    requires forall k :: 0 <= k < protections.Length ==> protections[k] == Decided(image, n, k)
    modifies memory`nextGeneration, memory`backings, memory`host, memory.table.Repr`value, protections
    ensures memory.Valid() && Loading(m, memory.State(), first, |cells|, cells) && Writable(memory.State(), first, |cells|)
    ensures status == Loaded ==>
              && Shows(memory.State(), first, |cells|, Placed(image, bytes, n + 1))
              && forall k :: 0 <= k < protections.Length ==> protections[k] == Decided(image, n + 1, k)
    ensures status in {Loaded, PermissionConflict, BadSection}
    ensures status == PermissionConflict <==> !SectionAgrees(image, n)
    ensures status == Loaded ==> SectionHeld(image, n)
    ensures supply && status == BadSection ==> !SectionHeld(image, n)
  {
    hide Loading, Writable, Decided, Arm64xImage.WellFormed, Arm64xImage.SectionEnd, Touches, SectionProtection, Shows, Placed,
         Arm64xImage.SectionsOk, SectionAgrees, SectionHeld,
         GemMemory.Valid, GemMemory.State;
    HasSections(image);
    SectionInside(image, n);
    SizeInPages(image, protections.Length);
    var ok := MarkSection(image, n, protections);
    if !ok {
      return PermissionConflict;
    }
    ok := CopySection(memory, m, image, bytes, n, first, protections.Length, cells, supply);
    status := if ok then Loaded else BadSection;
  }

  /** The raw data of one section, if it has any. */
  method CopySection(
    memory: GemMemory, ghost m: Memory, image: Arm64xImage.Image, bytes: seq<Byte>, n: nat, first: nat, count: nat,
    ghost cells: seq<Fresh>, supply: bool) returns (ok: bool)
    requires memory.Valid() && n < |image.sections| && image.byteCount == |bytes| && count == |cells|
    requires Arm64xImage.SectionsOk(image.sections, image.sizeOfImage) && image.sizeOfImage == count * PAGE_SIZE
    requires image.sizeOfHeaders <= |bytes| && image.sizeOfHeaders <= image.sizeOfImage
    requires image.sections[n].virtualAddress + image.sections[n].rawSize <= count * PAGE_SIZE
    requires Loading(m, memory.State(), first, count, cells) && Writable(memory.State(), first, count)
    requires Shows(memory.State(), first, count, Placed(image, bytes, n))
    requires (first + count) * PAGE_SIZE <= UINT64_MAX && count < MAX_PAGES
    modifies memory`nextGeneration, memory`backings, memory`host, memory.table.Repr`value
    ensures memory.Valid() && Loading(m, memory.State(), first, count, cells) && Writable(memory.State(), first, count)
    ensures ok ==> Shows(memory.State(), first, count, Placed(image, bytes, n + 1)) && SectionHeld(image, n)
    ensures supply ==> (ok <==> SectionHeld(image, n))
  {
    hide Loading, Writable, Arm64xImage.FileOffset, Shows, Placed, Patched, Arm64xImage.SectionsOk, SectionsVerdict,
         GemMemory.Valid, GemMemory.State;
    var section := image.sections[n];
    SectionPlaced(image, bytes, n);
    if section.rawSize == 0 {
      return true;
    }
    var o := Arm64xImage.FileOffset(image, section.virtualAddress, section.rawSize);
    if o.status != Arm64xImage.Ok {
      return false;
    }
    ok := WriteImage(memory, m, first, count, cells, Placed(image, bytes, n), first * PAGE_SIZE + section.virtualAddress,
                     bytes[o.value..o.value + section.rawSize], supply);
  }

  lemma SectionPlaced(image: Arm64xImage.Image, bytes: seq<Byte>, n: nat)
    requires n < |image.sections| && image.byteCount == |bytes| && image.sizeOfHeaders <= |bytes|
    requires image.sizeOfHeaders <= image.sizeOfImage && Arm64xImage.SectionsOk(image.sections, image.sizeOfImage)
    ensures var s := image.sections[n]; var o := Arm64xImage.FileOffset(image, s.virtualAddress, s.rawSize);
            && s.virtualAddress + s.rawSize <= image.sizeOfImage
            && (s.rawSize == 0 ==> Placed(image, bytes, n + 1) == Placed(image, bytes, n))
            && (o.status == Arm64xImage.Ok ==>
                  Placed(image, bytes, n + 1)
                  == Patched(Placed(image, bytes, n), s.virtualAddress, bytes[o.value..o.value + s.rawSize]))
  {
    hide Arm64xImage.FileOffset, Patched;
    assert Arm64xImage.SectionFits(image.sections[n], image.sizeOfImage);
  }

  lemma SectionInside(image: Arm64xImage.Image, n: nat)
    requires Arm64xImage.WellFormed(image) && n < |image.sections|
    ensures Arm64xImage.SectionEnd(image.sections[n]) <= image.sizeOfImage
    ensures image.sections[n].virtualAddress + image.sections[n].rawSize <= image.sizeOfImage
  {
    assert Arm64xImage.SectionFits(image.sections[n], image.sizeOfImage);
  }

  // ---- Bindings ----

  predicate HoldsSlot(s: Arm64xImage.Section, rva: nat) {
    s.virtualAddress <= rva && rva + 8 <= Arm64xImage.SectionEnd(s)
  }

  /** The first section that holds a whole slot. */
  method FindSlot(sections: seq<Arm64xImage.Section>, rva: nat) returns (found: Option<nat>)
    ensures found.Some? ==> found.value < |sections| && HoldsSlot(sections[found.value], rva)
    ensures found.None? ==> forall i :: 0 <= i < |sections| ==> !HoldsSlot(sections[i], rva)
  {
    for i := 0 to |sections|
      invariant forall k :: 0 <= k < i ==> !HoldsSlot(sections[k], rva)
    {
      if HoldsSlot(sections[i], rva) {
        return Some(i);
      }
    }
    found := None;
  }

  method SlotRepeated(bindings: seq<Binding>, n: nat) returns (repeated: bool)
    requires n < |bindings|
    ensures repeated <==> exists i :: 0 <= i < n && bindings[i].slotRva == bindings[n].slotRva
  {
    for i := 0 to n
      invariant forall k :: 0 <= k < i ==> bindings[k].slotRva != bindings[n].slotRva
    {
      if bindings[i].slotRva == bindings[n].slotRva {
        return true;
      }
    }
    repeated := false;
  }

  /** A binding that may be written: into data of the image, once, and to somewhere outside it. */
  ghost predicate BindingOk(image: Arm64xImage.Image, base: nat, bindings: seq<Binding>, n: nat)
    requires n < |bindings|
  {
    && (exists i :: 0 <= i < |image.sections| && HoldsSlot(image.sections[i], bindings[n].slotRva)
          && !HasBit(image.sections[i].characteristics, MEM_EXECUTE))
    && bindings[n].value != 0 && !(base <= bindings[n].value < base + image.sizeOfImage)
    && (forall i :: 0 <= i < n ==> bindings[i].slotRva != bindings[n].slotRva)
  }

  method Bind(
    memory: GemMemory, ghost m: Memory, image: Arm64xImage.Image, ghost bytes: seq<Byte>, bindings: seq<Binding>, first: nat,
    count: nat, ghost cells: seq<Fresh>, supply: bool) returns (status: LoadStatus)
    requires memory.Valid() && Arm64xImage.WellFormed(image) && image.sizeOfImage == count * PAGE_SIZE && count == |cells|
    requires image.byteCount == |bytes| && image.sizeOfHeaders <= |bytes| && image.sizeOfHeaders <= image.sizeOfImage
    requires (first + count) * PAGE_SIZE <= UINT64_MAX
    requires Loading(m, memory.State(), first, count, cells) && Writable(memory.State(), first, count)
    requires Shows(memory.State(), first, count, Placed(image, bytes, |image.sections|))
    modifies memory`nextGeneration, memory`backings, memory`host, memory.table.Repr`value
    ensures memory.Valid() && Loading(m, memory.State(), first, count, cells) && Writable(memory.State(), first, count)
    ensures status in {Loaded, BadBinding, MemoryError}
    ensures status == Loaded ==>
              && Shows(memory.State(), first, count, Bound(image, bytes, bindings, |bindings|))
              && AllBound(image, first * PAGE_SIZE, bindings)
    ensures status == BadBinding ==> !AllBound(image, first * PAGE_SIZE, bindings)
    ensures supply ==> status != MemoryError
  {
    hide Loading, Writable, BindingOk, Shows, Bound, Placed, Arm64xImage.SectionsOk, Arm64xImage.WellFormed,
         GemMemory.Valid, GemMemory.State;
    HasSections(image);
    NothingBound(image, bytes, bindings);
    for n := 0 to |bindings|
      invariant memory.Valid() && Loading(m, memory.State(), first, count, cells) && Writable(memory.State(), first, count)
      invariant Shows(memory.State(), first, count, Bound(image, bytes, bindings, n))
      invariant forall k :: 0 <= k < n ==> BindingOk(image, first * PAGE_SIZE, bindings, k)
    {
      status := BindOne(memory, m, image, bytes, bindings, n, first, count, cells, supply);
      if status != Loaded {
        return;
      }
    }
    status := Loaded;
  }

  method BindOne(
    memory: GemMemory, ghost m: Memory, image: Arm64xImage.Image, ghost bytes: seq<Byte>, bindings: seq<Binding>, n: nat, first: nat,
    count: nat, ghost cells: seq<Fresh>, supply: bool) returns (status: LoadStatus)
    requires memory.Valid() && Arm64xImage.WellFormed(image) && image.sizeOfImage == count * PAGE_SIZE && count == |cells|
    requires image.byteCount == |bytes| && image.sizeOfHeaders <= |bytes| && image.sizeOfHeaders <= image.sizeOfImage
    requires (first + count) * PAGE_SIZE <= UINT64_MAX
    requires n < |bindings| && Loading(m, memory.State(), first, count, cells) && Writable(memory.State(), first, count)
    requires Shows(memory.State(), first, count, Bound(image, bytes, bindings, n))
    modifies memory`nextGeneration, memory`backings, memory`host, memory.table.Repr`value
    ensures memory.Valid() && Loading(m, memory.State(), first, count, cells) && Writable(memory.State(), first, count)
    ensures status in {Loaded, BadBinding, MemoryError}
    ensures status == Loaded ==>
              && BindingOk(image, first * PAGE_SIZE, bindings, n)
              && Shows(memory.State(), first, count, Bound(image, bytes, bindings, n + 1))
    ensures status == BadBinding ==> !BindingOk(image, first * PAGE_SIZE, bindings, n)
    ensures supply ==> status != MemoryError
  {
    hide Loading, Writable, HasBit, Arm64xImage.WellFormed, Shows, Bound, Placed, Patched, Arm64xImage.SectionsOk,
         GemMemory.Valid, GemMemory.State;
    HasSections(image);
    var base, binding := first * PAGE_SIZE, bindings[n];
    var found := FindSlot(image.sections, binding.slotRva);
    OneHolds(image, binding.slotRva);
    SizeInPages(image, count);
    if found.None? || HasBit(image.sections[found.value].characteristics, MEM_EXECUTE) || binding.value == 0
       || (base <= binding.value && binding.value < base + image.sizeOfImage)
    {
      return BadBinding;
    }
    var repeated := SlotRepeated(bindings, n);
    if repeated {
      return BadBinding;
    }
    SectionInside(image, found.value);
    OneBound(image, bytes, bindings, n);
    var ok := WriteImage(memory, m, first, count, cells, Bound(image, bytes, bindings, n), base + binding.slotRva,
                         LittleEndian.Encode(binding.value, 8), supply);
    status := if ok then Loaded else MemoryError;
  }

  /** Of sections that do not overlap, only one can hold a slot. */
  lemma OneHolds(image: Arm64xImage.Image, rva: nat)
    requires Arm64xImage.SectionsOk(image.sections, image.sizeOfImage)
    ensures forall i, j | 0 <= i < |image.sections| && 0 <= j < |image.sections| ::
              HoldsSlot(image.sections[i], rva) && HoldsSlot(image.sections[j], rva) ==> i == j
  {
  }

  lemma OneBound(image: Arm64xImage.Image, bytes: seq<Byte>, bindings: seq<Binding>, n: nat)
    requires n < |bindings| && image.byteCount == |bytes| && image.sizeOfHeaders <= |bytes|
    requires image.sizeOfHeaders <= image.sizeOfImage && Arm64xImage.SectionsOk(image.sections, image.sizeOfImage)
    requires bindings[n].slotRva + 8 <= image.sizeOfImage
    ensures Bound(image, bytes, bindings, n + 1)
         == Patched(Bound(image, bytes, bindings, n), bindings[n].slotRva, LittleEndian.Encode(bindings[n].value, 8))
  {
  }

  // ---- Protecting ----

  ghost predicate ProtectedUpTo(s: Memory, image: Arm64xImage.Image, first: nat, n: nat) {
    forall p: nat :: InRange(p, first, n) ==> p in s.pages && s.pages[p].protection == FinalProtection(image, p - first)
  }

  method ProtectImage(
    memory: GemMemory, ghost m: Memory, image: Arm64xImage.Image, ghost content: seq<Byte>, protections: array<nat>, first: nat,
    ghost cells: seq<Fresh>) returns (status: LoadStatus)
    requires memory.Valid() && |cells| == protections.Length && (first + |cells|) * PAGE_SIZE <= UINT64_MAX
    requires Loading(m, memory.State(), first, |cells|, cells) && Shows(memory.State(), first, |cells|, content)
    requires forall k :: 0 <= k < protections.Length ==> protections[k] == Decided(image, |image.sections|, k)
    modifies memory`nextGeneration, memory.table.Repr`value
    ensures memory.Valid() && Loading(m, memory.State(), first, |cells|, cells)
    ensures status == Loaded && ProtectedUpTo(memory.State(), image, first, |cells|)
    ensures Shows(memory.State(), first, |cells|, content)
  {
    hide Loading, Decided, ProtectionOk, ProtectedUpTo, Shows,
         GemMemory.Valid, GemMemory.State;
    NoneProtected(memory.State(), image, first);
    for k := 0 to protections.Length
      invariant memory.Valid() && Loading(m, memory.State(), first, |cells|, cells)
      invariant ProtectedUpTo(memory.State(), image, first, k) && Shows(memory.State(), first, |cells|, content)
      invariant forall i :: 0 <= i < protections.Length ==> protections[i] == Decided(image, |image.sections|, i)
    {
      ProtectNext(memory, m, image, content, protections[k], first, cells, k);
    }
    status := Loaded;
  }

  method ProtectNext(
    memory: GemMemory, ghost m: Memory, image: Arm64xImage.Image, ghost content: seq<Byte>, decided: nat, first: nat,
    ghost cells: seq<Fresh>, k: nat)
    requires memory.Valid() && Loading(m, memory.State(), first, |cells|, cells) && Shows(memory.State(), first, |cells|, content)
    requires k < |cells| && (first + |cells|) * PAGE_SIZE <= UINT64_MAX
    requires decided == Decided(image, |image.sections|, k) && ProtectedUpTo(memory.State(), image, first, k)
    modifies memory`nextGeneration, memory.table.Repr`value
    ensures memory.Valid() && Loading(m, memory.State(), first, |cells|, cells)
    ensures ProtectedUpTo(memory.State(), image, first, k + 1) && Shows(memory.State(), first, |cells|, content)
  {
    hide Loading, Decided, ProtectionOk, ProtectedUpTo, Shows, OnePageChanged,
         GemMemory.Valid, GemMemory.State;
    ghost var s := memory.State();
    var protection := Protection(if decided == 0 then NO_ACCESS else decided, false);
    DecidedOk(image, |image.sections|, k);
    ProtectOne(memory, m, first, cells, k, protection);
    ProtectedMore(s, memory.State(), image, first, |cells|, k);
    ChangedShows(s, memory.State(), first, |cells|, content, first + k);
  }

  lemma NoneProtected(s: Memory, image: Arm64xImage.Image, first: nat)
    ensures ProtectedUpTo(s, image, first, 0)
  {
  }

  /** One page changed its protection or its stamp. */
  ghost predicate OnePageChanged(s: Memory, s': Memory, p: nat) {
    && p in s.pages && p in s'.pages && s'.pages[p].backing == s.pages[p].backing
    && s'.backings == s.backings && s'.host == s.host
    && forall q: nat :: q in s.pages && q != p ==> q in s'.pages && s'.pages[q] == s.pages[q]
  }

  lemma ChangedShows(s: Memory, s': Memory, first: nat, count: nat, content: seq<Byte>, p: nat)
    requires Shows(s, first, count, content) && OnePageChanged(s, s', p)
    ensures Shows(s', first, count, content)
  {
  }

  lemma ProtectedMore(s: Memory, s': Memory, image: Arm64xImage.Image, first: nat, count: nat, k: nat)
    requires ProtectedUpTo(s, image, first, k) && OnePageChanged(s, s', first + k)
    requires s'.pages[first + k].protection == FinalProtection(image, k)
    ensures ProtectedUpTo(s', image, first, k + 1)
  {
    StepRange(first, k);
  }

  method ProtectOne(memory: GemMemory, ghost m: Memory, first: nat, ghost cells: seq<Fresh>, k: nat, protection: Protection)
    requires memory.Valid() && Loading(m, memory.State(), first, |cells|, cells)
    requires k < |cells| && (first + |cells|) * PAGE_SIZE <= UINT64_MAX
    requires ProtectionOk(protection) || protection == Protection(NO_ACCESS, false)
    modifies memory`nextGeneration, memory.table.Repr`value
    ensures memory.Valid() && Loading(m, memory.State(), first, |cells|, cells)
    ensures OnePageChanged(old(memory.State()), memory.State(), first + k)
    ensures first + k in memory.State().pages && memory.State().pages[first + k].protection == protection
  {
    hide Loading, Run, ProtectPlan, ProtectionOk, GemMemory.Valid, GemMemory.State;
    OnePageProtect(m, memory.State(), first, cells, k, protection);
    var e, prior := memory.Protect((first + k) * PAGE_SIZE, PAGE_SIZE, protection);
  }

  lemma NoAccessOk()
    ensures ProtectionOk(Protection(NO_ACCESS, false))
  {
  }

  /** Protecting one page of the image always succeeds. */
  lemma OnePageProtect(m: Memory, s: Memory, first: nat, cells: seq<Fresh>, k: nat, protection: Protection)
    requires Loading(m, s, first, |cells|, cells) && k < |cells| && (first + |cells|) * PAGE_SIZE <= UINT64_MAX
    requires ProtectionOk(protection) || protection == Protection(NO_ACCESS, false)
    ensures var plan := ProtectPlan(s, (first + k) * PAGE_SIZE, PAGE_SIZE, protection);
            var s' := Run(s, plan.edits);
            && plan.error == Ok && Loading(m, s', first, |cells|, cells)
            && OnePageChanged(s, s', first + k) && s'.pages[first + k].protection == protection
  {
    hide Run, Apply, Inv;
    var p := first + k;
    NoAccessOk();
    assert InRange(p, first, |cells|) && s.pages[p].backing.Some?;
    assert CheckPages(s, p, 1, true) == CheckPages(s, p + 1, 0, true);
    var edits := ProtectEdits(p, 1, protection);
    assert edits == [Edit.Protect(p, protection)];
    OneEdit(s, Edit.Protect(p, protection));
    ProtectKeepsLoading(m, s, first, |cells|, cells, p, protection);
    OnlyProtected(s, p, protection);
  }

  // ---- The whole load ----

  /** Everything after the reservation, up to the last protection. */
  method Fill(
    memory: GemMemory, ghost m: Memory, image: Arm64xImage.Image, bytes: seq<Byte>, bindings: seq<Binding>, first: nat, count: nat,
    protections: array<nat>, supply: bool) returns (status: LoadStatus, ghost cells: seq<Fresh>)
    requires memory.Valid() && Healthy(m) && Arm64xImage.WellFormed(image) && image.byteCount == |bytes|
    requires image.sizeOfHeaders <= |bytes| && 0 < image.sizeOfHeaders <= image.sizeOfImage == count * PAGE_SIZE
    requires protections.Length == count && (first + count) * PAGE_SIZE <= UINT64_MAX && image.imageBase == first * PAGE_SIZE
    requires Loading(m, memory.State(), first, count, []) && memory.backings == m.backings && m.generation <= memory.nextGeneration
    requires Healthy(memory.State())
    requires forall k :: 0 <= k < protections.Length ==> protections[k] == Decided(image, 0, k)
    modifies memory`nextGeneration, memory`backings, memory`host, memory.table.Repr`value, protections
    ensures memory.Valid() && Loading(m, memory.State(), first, count, cells)
    ensures status == Loaded ==>
              && ProtectedUpTo(memory.State(), image, first, count)
              && Shows(memory.State(), first, count, Bound(image, bytes, bindings, |bindings|))
    ensures status in {Loaded, PermissionConflict, BadSection, BadBinding, MemoryError}
    ensures supply || (status != BadSection && status != MemoryError) ==> status == FillVerdict(image, bindings)
  {
    hide Loading, Writable, Decided, Inv, Partitioned, ProtectedUpTo, AllBound, Shows, Bound, Placed, SectionsVerdict,
         Arm64xImage.SectionsOk, Arm64xImage.WellFormed,
         GemMemory.Valid, GemMemory.State;
    HasSections(image);
    var ok;
    ok, cells := CommitImage(memory, m, first, count, supply);
    if !ok {
      return MemoryError, cells;
    }
    status := CopyImage(memory, m, image, bytes, first, cells, protections, supply);
    if status != Loaded {
      return;
    }
    status := Bind(memory, m, image, bytes, bindings, first, count, cells, supply);
    if status != Loaded {
      return;
    }
    status := ProtectImage(memory, m, image, Bound(image, bytes, bindings, |bindings|), protections, first, cells);
  }

  /** Storage for the whole image, all of it or none. */
  method CommitImage(memory: GemMemory, ghost m: Memory, first: nat, count: nat, supply: bool)
    returns (ok: bool, ghost cells: seq<Fresh>)
    requires memory.Valid() && Loading(m, memory.State(), first, count, []) && memory.backings == m.backings
    requires Healthy(memory.State()) && count > 0 && (first + count) * PAGE_SIZE <= UINT64_MAX
    modifies memory`nextGeneration, memory`backings, memory.table.Repr`value
    ensures memory.Valid() && Loading(m, memory.State(), first, count, cells)
    ensures ok ==>
              && |cells| == count && Writable(memory.State(), first, count)
              && Shows(memory.State(), first, count, Zeros(count * PAGE_SIZE))
    ensures supply ==> ok
  {
    hide Loading, Writable, Shows, Run, Inv, Partitioned, CommitEffect, CommitEdits, CheckPages, Allocated,
         GemMemory.Valid;
    cells := [];
    ghost var s := memory.State();
    var spare := FreshCells(memory, count);
    var room: bool := *;
    var refused: nat := *;
    if supply {
      room, refused := true, count;
    }
    var grants := seq(count, i => i != refused);
    LoadingMapped(m, s, first, count);
    CommitCall(s, first * PAGE_SIZE, count * PAGE_SIZE, Protection(READ_WRITE, false),
               if room && Grantable(s, first, grants) then Some(spare) else None);
    var e := memory.Commit(first * PAGE_SIZE, count * PAGE_SIZE, Protection(READ_WRITE, false), room, grants, spare);
    if e != Ok {
      return false, cells;
    }
    SameFresh(m, s, spare);
    HealthyHasInv(memory.State());
    CommittedLoading(m, s, memory.State(), first, spare);
    CommittedShows(m, s, memory.State(), first, spare);
    ok := true;
    cells := spare;
  }

  lemma HealthyHasInv(m: Memory)
    requires Healthy(m)
    ensures Inv(m)
  {
  }

  lemma LoadingMapped(m: Memory, s: Memory, first: nat, count: nat)
    requires Loading(m, s, first, count, [])
    ensures AllMapped(s, first, count)
  {
  }

  lemma SameFresh(m: Memory, s: Memory, cells: seq<Fresh>)
    requires Allocated(s, cells) && s.backings == m.backings
    ensures forall i :: 0 <= i < |cells| ==> cells[i].id !in m.backings
    ensures forall i, j :: 0 <= i < j < |cells| ==> cells[i].id != cells[j].id
  {
  }

  /** The checks on the image before anything is reserved. */
  predicate Loadable64(image: Arm64xImage.Image) {
    && image.imageBase % PAGE_SIZE == 0 && image.sizeOfImage % PAGE_SIZE == 0
    && 0 < image.sizeOfHeaders <= image.sizeOfImage
    && image.imageBase + image.sizeOfImage <= UINT64_MAX
  }

  /** The header pages, marked read-only. */
  method MarkHeaders(image: Arm64xImage.Image, protections: array<nat>)
    requires image.sizeOfHeaders <= protections.Length * PAGE_SIZE
    modifies protections
    ensures forall k :: 0 <= k < protections.Length ==> protections[k] == Decided(image, 0, k)
  {
    for k := 0 to protections.Length
      invariant forall i :: 0 <= i < k ==> protections[i] == 0
    {
      protections[k] := 0;
    }
    var end := PagesFor(image.sizeOfHeaders);
    for k := 0 to end
      invariant forall i :: 0 <= i < protections.Length ==> protections[i] == if i < k then READ_ONLY else 0
    {
      protections[k] := READ_ONLY;
    }
  }

  /**
   `gem_pe_arm64x_materialize_preferred`, from the parsed image on.

   For an image base other than 0 the load is transactional: any failure leaves mapping and backings as they
   were, and success gives every page the protection that headers and sections decided, or no access, and the
   bytes of headers, sections and bindings, in that order, over zeros.
   An image base of 0 asks the reservation for any address, which never is 0: the load then fails, and gives
   back address 0 instead of what it reserved.  That happens exactly when the reservation is reached and succeeds.
   `room` is whether the table of page protections can be had, `granted` how many page records.  With a `supply` of
   storage for the rest the outcome is `Verdict`; without it the load may also fail for want of storage, which the
   source reports as a bad section if it happens while a section is copied.
   */
  method Materialize(
    memory: GemMemory, image: Arm64xImage.Image, bytes: seq<Byte>, imageBase: nat, bindings: seq<Binding>, room: bool,
    granted: nat, supply: bool)
    returns (status: LoadStatus)
    requires memory.Valid() && Healthy(memory.State())
    requires Arm64xImage.WellFormed(image) && image.byteCount == |bytes| && image.sizeOfHeaders <= |bytes|
    modifies memory`nextGeneration, memory`backings, memory`host, memory.table, memory.table.buckets, memory.table.Repr
    ensures memory.Valid()
    ensures status != Loaded && imageBase != 0 ==> OnlyStampsUsed(old(memory.State()), memory.State())
    ensures status == Loaded ==>
              && imageBase == image.imageBase != 0
              && LoadedImage(old(memory.State()), memory.State(), image)
              && HoldsImage(memory.State(), image, bytes, bindings)
              && |bindings| <= MAX_BINDINGS && AllBound(image, imageBase, bindings)
              && Agreed(image, |image.sections|) && SectionsHeld(image, |image.sections|)
    ensures status == PermissionConflict ==> !Agreed(image, |image.sections|)
    ensures supply && status == BadSection ==> !SectionsHeld(image, |image.sections|)
    ensures status == BadBinding ==> !AllBound(image, imageBase, bindings)
    ensures supply || (status != BadSection && status != MemoryError) ==>
              status == Verdict(image, imageBase, bindings, room,
                                ReservePlan(old(memory.State()), imageBase, image.sizeOfImage, granted).error == Ok)
    ensures imageBase == 0 ==>
              if && |bindings| <= MAX_BINDINGS && image.imageBase == 0 && Loadable64(image) && room
                 && ReservePlan(old(memory.State()), 0, image.sizeOfImage, granted).error == Ok
              then status == MemoryError && LeftBehind(
                     old(memory.State()), memory.State(), ReserveBase(old(memory.State()), 0, image.sizeOfImage) / PAGE_SIZE,
                     image.sizeOfImage / PAGE_SIZE)
              else status != Loaded && OnlyStampsUsed(old(memory.State()), memory.State())
  {
    hide LeftBehind, OnlyStampsUsed, Healthy, AllBound, Agreed, SectionsHeld, FillVerdict, LoadedImage, HoldsImage,
         Arm64xImage.WellFormed, ReservePlan, ReserveBase, Decided, GemMemory.Valid, GemMemory.State;
    SameStamps(memory.State());
    RefusedFor(image, bindings);
    LoadableExactly(image, image.imageBase, bindings, true, true);
    if |bindings| > MAX_BINDINGS {
      return BadArgument;
    }
    if imageBase != image.imageBase {
      return RelocationRequired;
    }
    if !Loadable64(image) {
      return SizeOverflow;
    }
    if !room {
      return MemoryError;
    }
    var protections := new nat[image.sizeOfImage / PAGE_SIZE];
    MarkHeaders(image, protections);
    status := PlaceImage(memory, image, bytes, bindings, granted, protections, supply);
  }

  /** The load from its reservation on. */
  method PlaceImage(memory: GemMemory, image: Arm64xImage.Image, bytes: seq<Byte>, bindings: seq<Binding>, granted: nat,
                    protections: array<nat>, supply: bool)
    returns (status: LoadStatus)
    requires memory.Valid() && Healthy(memory.State())
    requires Arm64xImage.WellFormed(image) && image.byteCount == |bytes| && image.sizeOfHeaders <= |bytes| && Loadable64(image)
    requires protections.Length == image.sizeOfImage / PAGE_SIZE
    requires forall k :: 0 <= k < protections.Length ==> protections[k] == Decided(image, 0, k)
    modifies memory`nextGeneration, memory`backings, memory`host, memory.table, memory.table.buckets, memory.table.Repr, protections
    ensures memory.Valid()
    ensures status != Loaded && image.imageBase != 0 ==> OnlyStampsUsed(old(memory.State()), memory.State())
    ensures status == Loaded ==>
              && image.imageBase != 0 && LoadedImage(old(memory.State()), memory.State(), image)
              && HoldsImage(memory.State(), image, bytes, bindings)
    ensures supply || (status != BadSection && status != MemoryError) ==>
              status == (if ReservePlan(old(memory.State()), image.imageBase, image.sizeOfImage, granted).error != Ok
                         then AddressConflict else if image.imageBase == 0 then MemoryError else FillVerdict(image, bindings))
    ensures image.imageBase == 0 ==>
              if ReservePlan(old(memory.State()), 0, image.sizeOfImage, granted).error == Ok
              then status == MemoryError && LeftBehind(
                     old(memory.State()), memory.State(), ReserveBase(old(memory.State()), 0, image.sizeOfImage) / PAGE_SIZE,
                     image.sizeOfImage / PAGE_SIZE)
              else status != Loaded && OnlyStampsUsed(old(memory.State()), memory.State())
  {
    hide ReservePlan, ReserveBase, LeftBehind, OnlyStampsUsed, Healthy, Loading, FillVerdict, Decided, LoadedImage, HoldsImage,
         ReserveEffect, Arm64xImage.WellFormed,
         GemMemory.Valid;
    ghost var m := memory.State();
    var imageBase := image.imageBase;
    var first, count := imageBase / PAGE_SIZE, image.sizeOfImage / PAGE_SIZE;
    var e, base := ReserveImage(memory, imageBase, image.sizeOfImage, granted);
    if e != Ok {
      return AddressConflict;
    }
    if base != imageBase {
      GiveBackZero(memory, m, base, image.sizeOfImage);
      return MemoryError;
    }
    HealthyHasInv(m);
    HealthyHasInv(memory.State());
    ReservedLoading(m, memory.State(), first, count);
    ReservedParts(m, memory.State(), first, count);
    status := FillOrRelease(memory, m, image, bytes, bindings, protections, supply);
  }

  /** The reservation: at the image base, or beyond 4 GiB if that is 0. */
  method ReserveImage(memory: GemMemory, imageBase: nat, size: nat, granted: nat) returns (e: Error, base: nat)
    requires memory.Valid() && Healthy(memory.State())
    modifies memory`nextGeneration, memory.table, memory.table.buckets
    ensures memory.Valid() && Healthy(memory.State()) && fresh(memory.table.Repr - old(memory.table.Repr))
    ensures memory.table.buckets == old(memory.table.buckets)
    ensures e == ReservePlan(old(memory.State()), imageBase, size, granted).error
    ensures e != Ok ==> OnlyStampsUsed(old(memory.State()), memory.State())
    ensures e == Ok ==>
              && base == ReserveBase(old(memory.State()), imageBase, size)
              && base % PAGE_SIZE == 0 && 0 < size / PAGE_SIZE <= MAX_PAGES
              && (imageBase != 0 ==> base == imageBase) && (imageBase == 0 ==> base >= ANYWHERE_BASE)
              && ReserveEffect(old(memory.State()), memory.State(), base / PAGE_SIZE, size / PAGE_SIZE, size / PAGE_SIZE)
              && (forall p: nat :: InRange(p, base / PAGE_SIZE, size / PAGE_SIZE) ==> p !in old(memory.State()).pages)
  {
    hide OnlyStampsUsed, Inv, Partitioned, Run, ReserveEffect, ReservePlan, ReserveBase,
         GemMemory.Valid, GemMemory.State;
    ghost var m := memory.State();
    ReserveCall(m, imageBase, size, granted);
    e, base := memory.Reserve(imageBase, size, granted);
    if e == Ok {
      ReservedAt(m, imageBase, size, granted);
    }
  }

  /** What the failure path does for an image base of 0. */
  method GiveBackZero(memory: GemMemory, ghost m: Memory, base: nat, size: nat)
    requires memory.Valid() && Healthy(memory.State()) && size % PAGE_SIZE == 0 && 0 < size / PAGE_SIZE <= MAX_PAGES
    requires base % PAGE_SIZE == 0 && base >= ANYWHERE_BASE
    requires ReserveEffect(m, memory.State(), base / PAGE_SIZE, size / PAGE_SIZE, size / PAGE_SIZE)
    requires forall p: nat :: InRange(p, base / PAGE_SIZE, size / PAGE_SIZE) ==> p !in m.pages
    modifies memory`backings, memory.table, memory.table.buckets, memory.table.Repr
    ensures memory.Valid() && LeftBehind(m, memory.State(), base / PAGE_SIZE, size / PAGE_SIZE)
  {
    hide LeftBehind, Inv, Partitioned, Run, ReserveEffect, ReleasePlan,
         GemMemory.Valid, GemMemory.State;
    ghost var s := memory.State();
    HealthyHasInv(s);
    HealthyCounted(s);
    ZeroBaseLeaks(m, s, base / PAGE_SIZE, size / PAGE_SIZE);
    var ignored := memory.Release(0, size);
  }

  /** The load after its reservation at the image base: finished, or undone. */
  method FillOrRelease(
    memory: GemMemory, ghost m: Memory, image: Arm64xImage.Image, bytes: seq<Byte>, bindings: seq<Binding>,
    protections: array<nat>, supply: bool) returns (status: LoadStatus)
    requires memory.Valid() && Healthy(m) && Arm64xImage.WellFormed(image) && image.byteCount == |bytes|
    requires image.sizeOfHeaders <= |bytes| && Loadable64(image)
    requires protections.Length == image.sizeOfImage / PAGE_SIZE
    requires Loading(m, memory.State(), image.imageBase / PAGE_SIZE, image.sizeOfImage / PAGE_SIZE, [])
    requires memory.backings == m.backings && Healthy(memory.State())
    requires forall k :: 0 <= k < protections.Length ==> protections[k] == Decided(image, 0, k)
    modifies memory`nextGeneration, memory`backings, memory`host, memory.table, memory.table.buckets, memory.table.Repr, protections
    ensures memory.Valid()
    ensures status != Loaded ==> OnlyStampsUsed(m, memory.State())
    ensures status == Loaded ==>
              LoadedImage(m, memory.State(), image) && HoldsImage(memory.State(), image, bytes, bindings)
    ensures status in {Loaded, PermissionConflict, BadSection, BadBinding, MemoryError}
    ensures supply || (status != BadSection && status != MemoryError) ==> status == FillVerdict(image, bindings)
  {
    hide OnlyStampsUsed, Inv, Partitioned, Loading, Run, FillVerdict, Decided, ProtectedUpTo, LoadedImage, ReleasePlan, Shows, Bound,
         Placed, Arm64xImage.SectionsOk, Arm64xImage.CodeRangesOk, Arm64xImage.EntryRangesOk, Arm64xImage.RedirectionsOk,
         GemMemory.Valid;
    var first, count := image.imageBase / PAGE_SIZE, image.sizeOfImage / PAGE_SIZE;
    LoadingStamps(m, memory.State(), first, count);
    ghost var cells;
    status, cells := Fill(memory, m, image, bytes, bindings, first, count, protections, supply);
    if status != Loaded {
      ghost var z := memory.State();
      HealthyHasInv(m);
      ReleaseRestores(m, z, first, count, cells);
      LoadingCounted(m, z, first, count, cells);
      var ignored := memory.Release(image.imageBase, image.sizeOfImage);
      RolledBack(m, z);
      return;
    }
    FillLoads(m, memory.State(), image, first, count, cells);
  }

  lemma LoadingStamps(m: Memory, s: Memory, first: nat, count: nat)
    requires Loading(m, s, first, count, [])
    ensures m.generation <= s.generation
  {
  }

  lemma SameStamps(m: Memory)
    ensures OnlyStampsUsed(m, m)
  {
  }

  lemma HealthyCounted(m: Memory)
    requires Healthy(m)
    ensures Counted(m)
  {
  }

  lemma {:induction false} GapIsAbove(m: Memory, b: nat, n: nat)
    requires n + PAGE_SIZE <= UINT64_MAX
    ensures FirstGap(m, b, n) >= b
    decreases UINT64_MAX - b
  {
    if b in m.pages && b * PAGE_SIZE <= UINT64_MAX - n - PAGE_SIZE {
      GapIsAbove(m, b + 1, n);
    }
  }

  /** Where a successful reservation is: at the address asked for, or, if that was 0, beyond 4 GiB. */
  lemma ReservedAt(m: Memory, a: nat, n: nat, granted: nat)
    requires ReservePlan(m, a, n, granted).error == Ok
    ensures var b := ReserveBase(m, a, n);
            && b % PAGE_SIZE == 0 && 0 < n / PAGE_SIZE <= MAX_PAGES && n % PAGE_SIZE == 0 && b + n <= UINT64_MAX
            && (a != 0 ==> b == a) && (a == 0 ==> b >= ANYWHERE_BASE)
            && (forall p: nat :: InRange(p, b / PAGE_SIZE, n / PAGE_SIZE) ==> p !in m.pages)
  {
    if n / PAGE_SIZE <= MAX_PAGES {
      GapIsAbove(m, ANYWHERE_BASE / PAGE_SIZE, n);
    }
  }

  lemma ReservedParts(m: Memory, s: Memory, first: nat, count: nat)
    requires ReserveEffect(m, s, first, count, count)
    ensures s.backings == m.backings && m.generation <= s.generation
  {
  }

  /** Pages that were not there before are there afterwards. */
  ghost predicate NewPages(m: Memory, s: Memory, first: nat, count: nat) {
    forall p: nat :: InRange(p, first, count) ==> p !in m.pages && p in s.pages
  }

  /** A whole reservation of this size lies at address 0, as an alias can. */
  predicate OccupiesZero(m: Memory, count: nat) {
    0 in m.pages && m.pages[0].base == 0 && m.pages[0].size == count
  }

  /**
   What a load at base 0 leaves behind: its reservation, wherever that was made; and if a reservation of the same
   size lay at address 0, that one has gone instead, with all its references.
   */
  ghost predicate LeftBehind(m: Memory, m': Memory, first: nat, count: nat) {
    && count > 0 && NewPages(m, m', first, count)
    && exists s: Memory ::
         && ReserveEffect(m, s, first, count, count)
         && if OccupiesZero(m, count) then RemoveEffect(s, m', SetOf(Ascending(0, count))) else m' == s
  }

  /** Releasing address 0 does not give back a reservation beyond 4 GiB. */
  lemma ZeroBaseLeaks(m: Memory, s: Memory, first: nat, count: nat)
    requires ReserveEffect(m, s, first, count, count) && Healthy(s) && 0 < count <= MAX_PAGES
    requires first * PAGE_SIZE >= ANYWHERE_BASE && forall p: nat :: InRange(p, first, count) ==> p !in m.pages
    ensures LeftBehind(m, Run(s, ReleasePlan(s, 0, count * PAGE_SIZE).edits), first, count)
  {
    hide Run, ReleasePlan, Inv, Partitioned, Dropped, SetOf, ReserveEffect, OccupiesZero;
    var m' := Run(s, ReleasePlan(s, 0, count * PAGE_SIZE).edits);
    ReservedBeyondZero(m, s, first, count);
    ReleaseCall(s, 0, count * PAGE_SIZE);
    AscendingGrows(0, count);
    ZeroRange(s, count);
  }

  lemma ZeroRange(s: Memory, count: nat)
    requires 0 < count <= MAX_PAGES
    ensures OccupiesZero(s, count) <==>
              && RangeOk(0, count * PAGE_SIZE) && 0 / PAGE_SIZE in s.pages
              && s.pages[0 / PAGE_SIZE].base == 0 / PAGE_SIZE && s.pages[0 / PAGE_SIZE].size == (count * PAGE_SIZE) / PAGE_SIZE
  {
  }

  lemma ReservedBeyondZero(m: Memory, s: Memory, first: nat, count: nat)
    requires ReserveEffect(m, s, first, count, count) && 0 < count <= MAX_PAGES && first * PAGE_SIZE >= ANYWHERE_BASE
    ensures OccupiesZero(s, count) <==> OccupiesZero(m, count)
    ensures forall p: nat :: InRange(p, first, count) ==> p in s.pages
  {
  }

  lemma LoadingCounted(m: Memory, s: Memory, first: nat, count: nat, cells: seq<Fresh>)
    requires Loading(m, s, first, count, cells)
    ensures Counted(s)
  {
  }

  /** Rolled back: everything but the counter is as before the load, and the counter has not gone back. */
  lemma RolledBack(m: Memory, s: Memory)
    requires m.generation <= s.generation
    ensures OnlyStampsUsed(m, m.(generation := s.generation))
  {
  }

  lemma FillLoads(m: Memory, s: Memory, image: Arm64xImage.Image, first: nat, count: nat, cells: seq<Fresh>)
    requires Loading(m, s, first, count, cells) && ProtectedUpTo(s, image, first, count)
    requires first == image.imageBase / PAGE_SIZE && count == image.sizeOfImage / PAGE_SIZE
    ensures LoadedImage(m, s, image)
  {
    hide Inv, ProtectedUpTo;
  }

  /** Memory with an image in it: the old pages as they were, the image's with their final protection. */
  ghost predicate LoadedImage(m: Memory, s: Memory, image: Arm64xImage.Image) {
    var first, count := image.imageBase / PAGE_SIZE, image.sizeOfImage / PAGE_SIZE;
    && (forall p: nat :: p in s.pages <==> p in m.pages || InRange(p, first, count))
    && (forall p: nat :: p in m.pages ==> !InRange(p, first, count) && s.pages[p] == m.pages[p])
    && (forall b :: b in m.backings ==> b in s.backings && s.backings[b] == m.backings[b])
    && ProtectedUpTo(s, image, first, count)
  }

  /** The bytes of a loaded image, all found in the file. */
  ghost predicate HoldsImage(s: Memory, image: Arm64xImage.Image, bytes: seq<Byte>, bindings: seq<Binding>)
    requires Arm64xImage.WellFormed(image) && image.byteCount == |bytes| && image.sizeOfHeaders <= |bytes|
  {
    && image.sizeOfHeaders <= image.sizeOfImage
    && Shows(s, image.imageBase / PAGE_SIZE, image.sizeOfImage / PAGE_SIZE, Bound(image, bytes, bindings, |bindings|))
  }
}

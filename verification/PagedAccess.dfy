/**
 Reads and writes of guest byte ranges: validation of the whole range first, then the one-shot guard,
 then copies for write-copy pages, then the bytes, page by page.
 */
module PagedAccess {
  import opened Options
  import opened GuestMemory
  import opened MemoryInvariants
  import opened MappingCalls
  import opened MappingEffects
  import opened MappingTheorems

  // ---- The range as pages ----

  /** How many pages the `n` bytes at `a` touch. */
  function Span(a: nat, n: nat): nat {
    if n == 0 then 0 else (a % PAGE_SIZE + n + PAGE_SIZE - 1) / PAGE_SIZE
  }

  /** Bytes `Start(a, k) .. Start(a, k + 1)` of the caller's buffer belong to the k-th page, up to the length. */
  function Start(a: nat, n: nat, k: nat): nat {
    if k == 0 then 0 else if k * PAGE_SIZE - a % PAGE_SIZE < n then k * PAGE_SIZE - a % PAGE_SIZE else n
  }

  /** The k-th page of the range. */
  function PageAt(a: nat, k: nat): nat { a / PAGE_SIZE + k }

  function Offset(a: nat, k: nat): nat {
    if k == 0 then a % PAGE_SIZE else 0
  }

  lemma ChunkFits(a: nat, n: nat, k: nat)
    requires k < Span(a, n)
    ensures Start(a, n, k) < Start(a, n, k + 1) <= n
    ensures Offset(a, k) + (Start(a, n, k + 1) - Start(a, n, k)) <= PAGE_SIZE
    ensures k + 1 == Span(a, n) ==> Start(a, n, k + 1) == n
  {
  }

  function Chunk(data: seq<Byte>, a: nat, k: nat): seq<Byte>
    requires k < Span(a, |data|)
  {
    ChunkFits(a, |data|, k);
    data[Start(a, |data|, k)..Start(a, |data|, k + 1)]
  }

  // ---- Validation ----

  function AccessError(m: Memory, p: nat, write: bool, execute: bool): Error {
    if p !in m.pages then NotReserved
    else if m.pages[p].backing.None? then NotCommitted
    else if !Allowed(m.pages[p].protection, write, execute) then AccessDenied
    else Ok
  }

  /** The error of the first page that has one. */
  function CheckAccess(m: Memory, first: nat, count: nat, write: bool, execute: bool): (e: Error)
    ensures e in {Ok, NotReserved, NotCommitted, AccessDenied}
    ensures e == Ok <==> forall p: nat :: InRange(p, first, count) ==> AccessError(m, p, write, execute) == Ok
    decreases count
  {
    if count == 0 then Ok
    else
      var e := AccessError(m, first, write, execute);
      assert InRange(first, first, count);
      assert forall p: nat :: InRange(p, first, count) <==> p == first || InRange(p, first + 1, count - 1);
      if e != Ok then e else CheckAccess(m, first + 1, count - 1, write, execute)
  }

  /** The first page of the range that carries a guard. */
  function FirstGuard(m: Memory, first: nat, count: nat): (g: Option<nat>)
    ensures g.Some? ==> InRange(g.value, first, count) && g.value in m.pages && m.pages[g.value].protection.guard
    ensures forall p: nat :: InRange(p, first, if g.Some? then g.value - first else count) && p in m.pages ==>
              !m.pages[p].protection.guard
    decreases count
  {
    if count == 0 then None
    else if first in m.pages && m.pages[first].protection.guard then Some(first)
    else FirstGuard(m, first + 1, count - 1)
  }

  function Unguarded(p: Protection): Protection { p.(guard := false) }

  // ---- Plans ----

  /** What an access does to a page's own record before any byte moves. */
  function PromoteEdit(m: Memory, p: nat, write: bool, cell: Fresh): seq<Edit> {
    if !Backed(m, p) || !IsWriteCopy(m.pages[p].protection) then []
    else if m.backings[BackingOf(m, p)].data.External? then [PromoteExternal(p)]
    else if write then [Detach(p, cell)]
    else []
  }

  function PromoteEdits(m: Memory, first: nat, cells: seq<Fresh>, write: bool, k: nat): seq<Edit>
    requires k <= |cells|
  {
    if k == 0 then [] else PromoteEdits(m, first, cells, write, k - 1) + PromoteEdit(m, first + (k - 1), write, cells[k - 1])
  }

  /** A read copies nothing, but it too ends the write-copy state of caller-owned pages. */
  function ReadEdits(m: Memory, first: nat, count: nat): seq<Edit> {
    PromoteEdits(m, first, seq(count, _ => Fresh(0, 0)), false, count)
  }

  function StoreEdits(a: nat, data: seq<Byte>): seq<Edit> {
    seq(Span(a, |data|), k requires 0 <= k < Span(a, |data|) => Store(PageAt(a, k), Offset(a, k), Chunk(data, a, k)))
  }

  datatype AccessKind = Read | Write(data: seq<Byte>) | Fetch | QueryExecute

  /**
   `access_memory_locked`.  `scratch` says whether working storage was granted; `cells` are the backings
   granted to a write, one per page and used where a copy is needed, or none if one was refused.
   */
  function AccessPlan(
    m: Memory, a: nat, n: nat, kind: AccessKind, consumeGuard: bool, scratch: bool, cells: Option<seq<Fresh>>): Plan
    requires kind.Write? ==> |kind.data| == n
    requires cells.Some? ==> |cells.value| == Span(a, n)
  {
    var first, count := a / PAGE_SIZE, Span(a, n);
    if a + n > UINT64_MAX then Plan(InvalidArgument, [])
    else if n == 0 then Plan(Ok, [])
    else if n + a % PAGE_SIZE + (PAGE_SIZE - 1) > UINT64_MAX then Plan(Overflow, [])
    else if !scratch then Plan(NoMemory, [])
    else
      var e := CheckAccess(m, first, count, kind.Write?, kind.Fetch? || kind.QueryExecute?);
      if e != Ok then Plan(e, [])
      else if kind.QueryExecute? then Plan(Ok, [])
      else
        var g := FirstGuard(m, first, count);
        if g.Some? then
          Plan(GuardPage, if consumeGuard then [Protect(g.value, Unguarded(m.pages[g.value].protection))] else [])
        else if !kind.Write? then Plan(Ok, ReadEdits(m, first, count))
        else if cells.None? then Plan(NoMemory, [])
        else Plan(Ok, PromoteEdits(m, first, cells.value, true, count) + StoreEdits(a, kind.data))
  }

  /** The content of a committed page. */
  function LoadPage(m: Memory, p: nat): PageBytes
    requires Backed(m, p) && ReadableBacking(m, BackingOf(m, p))
  {
    Contents(m, BackingOf(m, p))
  }

  ghost predicate Loadable(m: Memory, p: nat) {
    Backed(m, p) && ReadableBacking(m, BackingOf(m, p))
  }

  ghost predicate AllLoadable(m: Memory, first: nat, count: nat) {
    forall p: nat :: InRange(p, first, count) ==> Loadable(m, p)
  }

  lemma FewerLoadable(m: Memory, first: nat, count: nat, k: nat)
    requires AllLoadable(m, first, count) && k < count
    ensures Loadable(m, first + k) && AllLoadable(m, first, k)
  {
    assert InRange(first + k, first, count);
    assert forall p: nat :: InRange(p, first, k) ==> InRange(p, first, count);
  }

  /** The part of the k-th page of a range that the range covers. */
  function Slice(page: PageBytes, a: nat, n: nat, k: nat): seq<Byte>
    requires k < Span(a, n)
  {
    ChunkFits(a, n, k);
    page[Offset(a, k)..Offset(a, k) + (Start(a, n, k + 1) - Start(a, n, k))]
  }

  /** What a read copies out: the bytes of the first `k` pages of the range. */
  ghost function Gathered(m: Memory, a: nat, n: nat, k: nat): seq<Byte>
    requires k <= Span(a, n) && AllLoadable(m, a / PAGE_SIZE, k)
  {
    if k == 0 then []
    else
      FewerLoadable(m, a / PAGE_SIZE, k, k - 1);
      Gathered(m, a, n, k - 1) + Slice(LoadPage(m, PageAt(a, k - 1)), a, n, k - 1)
  }

  // ---- Errors ----

  lemma OneEdit(m: Memory, e: Edit)
    ensures Run(m, [e]) == Apply(m, e)
  {
    RunSnoc(m, [], e);
    assert [] + [e] == [e];
  }

  ghost function GuardCleared(m: Memory, p: nat): Memory
    requires p in m.pages
  {
    m.(pages := m.pages[p := m.pages[p].(
         protection := m.pages[p].protection.(guard := false), generation := m.generation + 1)],
       generation := m.generation + 1)
  }

  lemma ClearGuard(m: Memory, p: nat)
    requires p in m.pages
    ensures Run(m, [Protect(p, Unguarded(m.pages[p].protection))]) == GuardCleared(m, p)
  {
    hide Run;
    var protection := Unguarded(m.pages[p].protection);
    OneEdit(m, Protect(p, protection));
    UpdateTwice(m.pages, p, m.pages[p].(protection := protection),
                m.pages[p].(protection := protection, generation := m.generation + 1));
  }

  lemma UpdateTwice<K, V>(m: map<K, V>, k: K, v: V, w: V)
    ensures m[k := v][k := w] == m[k := w]
  {
  }

  /**
   A failed access moves no byte and changes no mapping.  A guard hit that consumes clears exactly the
   first guard of the range and stamps that page; a deferred one changes nothing at all.
   */
  lemma FailedAccess(
    m: Memory, a: nat, n: nat, kind: AccessKind, consumeGuard: bool, scratch: bool, cells: Option<seq<Fresh>>)
    requires kind.Write? ==> |kind.data| == n
    requires cells.Some? ==> |cells.value| == Span(a, n)
    ensures var plan := AccessPlan(m, a, n, kind, consumeGuard, scratch, cells);
            var m' := Run(m, plan.edits);
            && (plan.error != Ok && !(plan.error == GuardPage && consumeGuard) ==> m' == m)
            && (plan.error == GuardPage && consumeGuard ==>
                  exists p: nat ::
                    && InRange(p, a / PAGE_SIZE, Span(a, n)) && p in m.pages && m.pages[p].protection.guard
                    && (forall q: nat :: InRange(q, a / PAGE_SIZE, p - a / PAGE_SIZE) && q in m.pages ==>
                          !m.pages[q].protection.guard)
                    && m' == GuardCleared(m, p))
  {
    hide CheckAccess, PromoteEdits, StoreEdits, ReadEdits, Span, Run, GuardCleared, FirstGuard;
    var plan := AccessPlan(m, a, n, kind, consumeGuard, scratch, cells);
    NoEdits(m);
    if plan.error == GuardPage && consumeGuard {
      ClearGuard(m, FirstGuard(m, a / PAGE_SIZE, Span(a, n)).value);
    }
  }

  // ---- Promotion ----

  /** Where bytes live: two backings of one host page share it. */
  datatype Location = Owned(id: BackingId) | HostPage(host: nat)

  ghost function LocationOf(m: Memory, b: BackingId): Location
    requires b in m.backings
  {
    match m.backings[b].data
    case Internal(_) => Owned(b)
    case External(host) => HostPage(host)
  }

  ghost predicate Shares(m: Memory, p: nat, q: nat) {
    Loadable(m, p) && Loadable(m, q) && LocationOf(m, BackingOf(m, p)) == LocationOf(m, BackingOf(m, q))
  }

  lemma SharedContent(m: Memory, p: nat, q: nat)
    requires Shares(m, p, q)
    ensures LoadPage(m, p) == LoadPage(m, q)
  {
  }

  /** A page that a write to it must first copy. */
  ghost predicate Copies(m: Memory, p: nat) {
    Backed(m, p) && m.pages[p].protection.access in {0x08, 0x80} && m.backings[BackingOf(m, p)].data.Internal?
  }

  /** Content is where it was, page by page; only `Copies` pages have storage of their own now. */
  ghost predicate ContentKept(m: Memory, m': Memory) {
    && m'.host == m.host && m'.transactions == m.transactions && m'.pages.Keys == m.pages.Keys
    && (forall p: nat :: Loadable(m, p) ==> Loadable(m', p) && LoadPage(m', p) == LoadPage(m, p))
  }

  ghost predicate PromotedPages(m: Memory, m': Memory, first: nat, cells: seq<Fresh>, write: bool, k: nat) {
    && k <= |cells| && m.generation <= m'.generation
    && (forall p: nat :: p in m.pages && p in m'.pages && !InRange(p, first, k) ==> m'.pages[p] == m.pages[p])
    && (forall p: nat :: p in m.pages && p in m'.pages && InRange(p, first, k) ==>
          && (write && Copies(m, p) ==> m'.pages[p].backing == Some(cells[p - first].id))
          && (!(write && Copies(m, p)) ==> m'.pages[p].backing == m.pages[p].backing))
    && (forall p: nat :: InRange(p, first, k) && write && Copies(m, p) ==> IsInternal(m', cells[p - first].id))
    && (forall b :: b in m.backings && b in m'.backings ==> m'.backings[b].data == m.backings[b].data)
    && (write ==> forall j :: k <= j < |cells| ==> cells[j].id !in m'.backings)
  }

  /** The pages and backings after a detach, as far as content goes. */
  ghost predicate DetachedAt(s: Memory, s': Memory, p: nat, cell: Fresh) {
    && s'.host == s.host && s'.transactions == s.transactions && s'.generation == s.generation + 1
    && s'.pages.Keys == s.pages.Keys && Backed(s, p)
    && (forall q: nat :: q in s.pages && q != p ==> s'.pages[q] == s.pages[q])
    && s'.pages[p].backing == Some(cell.id)
    && cell.id !in s.backings && cell.id in s'.backings && s'.backings[cell.id].data == s.backings[BackingOf(s, p)].data
    && (forall b :: b in s'.backings && b != cell.id ==> b in s.backings && s'.backings[b].data == s.backings[b].data)
    && (forall b :: b in s.backings && b != BackingOf(s, p) ==> b in s'.backings)
  }

  lemma DetachFacts(s: Memory, p: nat, cell: Fresh)
    requires Enabled(s, Detach(p, cell))
    ensures DetachedAt(s, Apply(s, Detach(p, cell)), p, cell)
  {
  }

  lemma DetachKeepsContent(m: Memory, s: Memory, s': Memory, p: nat, cell: Fresh)
    requires ContentKept(m, s) && Counted(s') && DetachedAt(s, s', p, cell) && Loadable(s, p)
    ensures ContentKept(m, s')
  {
    hide Counted;
    forall q: nat | Loadable(m, q) ensures Loadable(s', q) && LoadPage(s', q) == LoadPage(m, q) {
      assert Loadable(s, q);
      MappedIsBacked(s', q);
    }
  }

  lemma DetachStep(m: Memory, s: Memory, first: nat, cells: seq<Fresh>, k: nat)
    requires Inv(m) && Inv(s) && ContentKept(m, s) && PromotedPages(m, s, first, cells, true, k)
    requires k < |cells| && Allocated(m, cells) && Copies(m, first + k)
    ensures ContentKept(m, Apply(s, Detach(first + k, cells[k])))
    ensures PromotedPages(m, Apply(s, Detach(first + k, cells[k])), first, cells, true, k + 1)
  {
    hide Counted, Stamped, Apply, LoadPage;
    var p := first + k;
    assert Loadable(m, p) && Loadable(s, p);
    var s' := Apply(s, Detach(p, cells[k]));
    DetachFacts(s, p, cells[k]);
    InvPreserved(s, Detach(p, cells[k]));
    DetachKeepsContent(m, s, s', p, cells[k]);
    StepRange(first, k);
  }

  lemma SameStorage(m: Memory, s: Memory, s': Memory)
    requires ContentKept(m, s) && s' == s.(pages := s'.pages) && s'.pages.Keys == s.pages.Keys
    requires forall q: nat :: q in s.pages ==> s'.pages[q].backing == s.pages[q].backing
    ensures ContentKept(m, s')
  {
    forall q: nat | Loadable(m, q) ensures Loadable(s', q) && LoadPage(s', q) == LoadPage(m, q) {
      assert Loadable(s, q);
    }
  }

  lemma PromotedMore(m: Memory, s: Memory, s': Memory, first: nat, cells: seq<Fresh>, write: bool, k: nat)
    requires PromotedPages(m, s, first, cells, write, k) && k < |cells| && !Copies(m, first + k)
    requires s' == s.(pages := s'.pages) && first + k in s.pages
    requires exists page :: s'.pages == s.pages[first + k := page] && page.backing == s.pages[first + k].backing
    ensures PromotedPages(m, s', first, cells, write, k + 1)
  {
    hide Copies;
    StepRange(first, k);
  }

  lemma PromoteExternalStep(m: Memory, s: Memory, first: nat, cells: seq<Fresh>, write: bool, k: nat)
    requires ContentKept(m, s) && PromotedPages(m, s, first, cells, write, k)
    requires k < |cells| && Loadable(m, first + k) && !Copies(m, first + k)
    ensures ContentKept(m, Apply(s, PromoteExternal(first + k)))
    ensures PromotedPages(m, Apply(s, PromoteExternal(first + k)), first, cells, write, k + 1)
  {
    hide PromotedPages, Copies, LoadPage;
    var p := first + k;
    assert p in s.pages;
    var s' := Apply(s, PromoteExternal(p));
    var page := s'.pages[p];
    assert s'.pages == s.pages[p := page];
    SameStorage(m, s, s');
    PromotedMore(m, s, s', first, cells, write, k);
  }

  lemma PromoteNoneStep(m: Memory, s: Memory, first: nat, cells: seq<Fresh>, write: bool, k: nat)
    requires PromotedPages(m, s, first, cells, write, k) && k < |cells| && !(write && Copies(m, first + k))
    ensures PromotedPages(m, s, first, cells, write, k + 1)
  {
    StepRange(first, k);
  }

  lemma PromoteStep(m: Memory, s: Memory, first: nat, cells: seq<Fresh>, write: bool, k: nat)
    requires Inv(m) && Inv(s) && ContentKept(m, s) && PromotedPages(m, s, first, cells, write, k)
    requires k < |cells| && (write ==> Allocated(m, cells))
    ensures var s' := Run(s, PromoteEdit(m, first + k, write, cells[k]));
            ContentKept(m, s') && PromotedPages(m, s', first, cells, write, k + 1)
  {
    hide Inv, Run, Apply, ContentKept, PromotedPages, Allocated;
    var p := first + k;
    if !Backed(m, p) || !IsWriteCopy(m.pages[p].protection) {
      NoEdits(s);
      PromoteNoneStep(m, s, first, cells, write, k);
    } else if m.backings[BackingOf(m, p)].data.External? {
      OneEdit(s, PromoteExternal(p));
      InvLoadable(m, p);
      PromoteExternalStep(m, s, first, cells, write, k);
    } else if write {
      OneEdit(s, Detach(p, cells[k]));
      DetachStep(m, s, first, cells, k);
    } else {
      NoEdits(s);
      PromoteNoneStep(m, s, first, cells, write, k);
    }
  }

  lemma InvLoadable(m: Memory, p: nat)
    requires Inv(m) && Backed(m, p)
    ensures Loadable(m, p)
  {
  }

  lemma NothingPromoted(m: Memory, first: nat, cells: seq<Fresh>, write: bool)
    requires write ==> forall j :: 0 <= j < |cells| ==> cells[j].id !in m.backings
    ensures ContentKept(m, m) && PromotedPages(m, m, first, cells, write, 0)
  {
  }

  lemma {:induction false} PromoteRun(m: Memory, first: nat, cells: seq<Fresh>, write: bool, k: nat)
    requires Inv(m) && k <= |cells| && (write ==> Allocated(m, cells))
    requires write ==> forall j :: 0 <= j < |cells| ==> cells[j].id !in m.backings
    ensures var s := Run(m, PromoteEdits(m, first, cells, write, k));
            Inv(s) && ContentKept(m, s) && PromotedPages(m, s, first, cells, write, k)
    decreases k
  {
    hide Inv, Apply, ContentKept, PromotedPages, Allocated, PromoteEdit;
    InvOverRun(m, PromoteEdits(m, first, cells, write, k));
    if k == 0 {
      NothingPromoted(m, first, cells, write);
    } else {
      PromoteRun(m, first, cells, write, k - 1);
      PromoteStep(m, Run(m, PromoteEdits(m, first, cells, write, k - 1)), first, cells, write, k - 1);
      RunAppend(m, PromoteEdits(m, first, cells, write, k - 1), PromoteEdit(m, first + (k - 1), write, cells[k - 1]));
    }
  }

  // ---- Which pages show the same bytes once write-copy pages have their own storage ----

  ghost predicate SharesAfter(m: Memory, first: nat, count: nat, p: nat, q: nat) {
    && Loadable(m, p) && Loadable(m, q)
    && (p == q
        || (&& Shares(m, p, q)
            && !(InRange(p, first, count) && Copies(m, p))
            && !(InRange(q, first, count) && Copies(m, q))))
  }

  lemma SharingAfterPromotion(m: Memory, s: Memory, first: nat, cells: seq<Fresh>, p: nat, q: nat)
    requires Inv(s) && Allocated(m, cells) && ContentKept(m, s) && PromotedPages(m, s, first, cells, true, |cells|)
    requires Loadable(m, p) && Loadable(m, q)
    ensures Shares(s, p, q) <==> SharesAfter(m, first, |cells|, p, q)
  {
    hide Counted, Stamped;
    assert Loadable(s, p) && Loadable(s, q);
  }

  // ---- Stores ----

  /** The same pages with the same sharing. */
  ghost predicate SameSharing(m: Memory, m': Memory) {
    && m'.pages.Keys == m.pages.Keys
    && (forall p: nat :: Loadable(m, p) <==> Loadable(m', p))
    && (forall p: nat, q: nat :: Shares(m', p, q) <==> Shares(m, p, q))
  }

  lemma StoreFacts(m: Memory, p: nat, offset: nat, chunk: seq<Byte>)
    requires Loadable(m, p) && offset + |chunk| <= PAGE_SIZE
    ensures var m' := Apply(m, Store(p, offset, chunk));
            && SameSharing(m, m')
            && (forall q: nat :: Loadable(m, q) ==>
                  LoadPage(m', q) == if Shares(m, p, q) then Overwrite(LoadPage(m, p), offset, chunk) else LoadPage(m, q))
  {
    hide Overwrite;
    assert Apply(m, Store(p, offset, chunk)) == StoreThrough(m, p, Overwrite(LoadPage(m, p), offset, chunk));
    StoreSharing(m, p, Overwrite(LoadPage(m, p), offset, chunk));
  }

  lemma StoreSharing(m: Memory, p: nat, bytes: PageBytes)
    requires Loadable(m, p)
    ensures var m' := StoreThrough(m, p, bytes);
            && SameSharing(m, m')
            && (forall q: nat :: Loadable(m, q) ==> LoadPage(m', q) == if Shares(m, p, q) then bytes else LoadPage(m, q))
  {
    var m' := StoreThrough(m, p, bytes);
    assert forall q: nat :: q in m.pages ==> m'.pages[q].backing == m.pages[q].backing;
    assert m'.backings.Keys == m.backings.Keys;
    assert forall b :: b in m.backings ==> LocationOf(m', b) == LocationOf(m, b);
    assert m'.host.Keys == m.host.Keys;
  }

  /** Whether the k-th page's part of the range includes this offset of the page. */
  predicate Covers(a: nat, n: nat, k: nat, o: nat) {
    k < Span(a, n) && Offset(a, k) <= o < Offset(a, k) + (Start(a, n, k + 1) - Start(a, n, k))
  }

  /** The caller's byte for an offset of the k-th page. */
  function ByteFor(data: seq<Byte>, a: nat, k: nat, o: nat): Byte
    requires Covers(a, |data|, k, o)
  {
    ChunkFits(a, |data|, k);
    data[Start(a, |data|, k) + (o - Offset(a, k))]
  }

  /** Pages of the range that share storage are given the same bytes wherever both are written. */
  ghost predicate Agreement(m: Memory, a: nat, data: seq<Byte>) {
    forall i: nat, j: nat, o: nat ::
      Covers(a, |data|, i, o) && Covers(a, |data|, j, o)
      && SharesAfter(m, a / PAGE_SIZE, Span(a, |data|), PageAt(a, i), PageAt(a, j))
      ==> ByteFor(data, a, i, o) == ByteFor(data, a, j, o)
  }

  /** `Agreement`, in a state where write-copy pages already have their own storage. */
  ghost predicate AgreementIn(s: Memory, a: nat, data: seq<Byte>) {
    forall i: nat, j: nat, o: nat ::
      Covers(a, |data|, i, o) && Covers(a, |data|, j, o) && Shares(s, PageAt(a, i), PageAt(a, j))
      ==> ByteFor(data, a, i, o) == ByteFor(data, a, j, o)
  }

  ghost predicate Written(s: Memory, a: nat, data: seq<Byte>, k: nat) {
    forall i: nat, o: nat :: i < k && Covers(a, |data|, i, o) ==>
      Loadable(s, PageAt(a, i)) && o < PAGE_SIZE && LoadPage(s, PageAt(a, i))[o] == ByteFor(data, a, i, o)
  }

  ghost predicate OthersKept(s0: Memory, s: Memory, a: nat, k: nat) {
    forall q: nat :: Loadable(s0, q) && Loadable(s, q) && (forall i: nat :: i < k ==> !Shares(s0, PageAt(a, i), q)) ==>
      LoadPage(s, q) == LoadPage(s0, q)
  }

  lemma OverwriteAt(page: PageBytes, a: nat, data: seq<Byte>, k: nat, o: nat)
    requires k < Span(a, |data|) && o < PAGE_SIZE
    ensures Offset(a, k) + |Chunk(data, a, k)| <= PAGE_SIZE
    ensures Overwrite(page, Offset(a, k), Chunk(data, a, k))[o]
            == if Covers(a, |data|, k, o) then ByteFor(data, a, k, o) else page[o]
  {
    ChunkFits(a, |data|, k);
  }

  lemma StoreStep(s0: Memory, s: Memory, a: nat, data: seq<Byte>, k: nat)
    requires SameSharing(s0, s) && k < Span(a, |data|) && Loadable(s0, PageAt(a, k))
    requires OthersKept(s0, s, a, k) && (AgreementIn(s0, a, data) ==> Written(s, a, data, k))
    ensures Offset(a, k) + |Chunk(data, a, k)| <= PAGE_SIZE
    ensures var s' := Apply(s, Store(PageAt(a, k), Offset(a, k), Chunk(data, a, k)));
            && SameSharing(s0, s')
            && OthersKept(s0, s', a, k + 1)
            && (AgreementIn(s0, a, data) ==> Written(s', a, data, k + 1))
  {
    hide Apply, Overwrite, Shares;
    ChunkFits(a, |data|, k);
    var p := PageAt(a, k);
    var s' := Apply(s, Store(p, Offset(a, k), Chunk(data, a, k)));
    StoreFacts(s, p, Offset(a, k), Chunk(data, a, k));
    if AgreementIn(s0, a, data) {
      forall i: nat, o: nat | i < k + 1 && Covers(a, |data|, i, o)
        ensures Loadable(s', PageAt(a, i)) && o < PAGE_SIZE && LoadPage(s', PageAt(a, i))[o] == ByteFor(data, a, i, o)
      {
        WrittenStep(s0, s, s', a, data, k, i, o);
      }
    }
  }

  lemma WrittenStep(s0: Memory, s: Memory, s': Memory, a: nat, data: seq<Byte>, k: nat, i: nat, o: nat)
    requires SameSharing(s0, s) && SameSharing(s, s') && i <= k < Span(a, |data|) && Covers(a, |data|, i, o)
    requires Loadable(s, PageAt(a, k)) && AgreementIn(s0, a, data) && Written(s, a, data, k)
    requires i == k || Loadable(s, PageAt(a, i))
    requires Offset(a, k) + |Chunk(data, a, k)| <= PAGE_SIZE
    requires forall q: nat :: Loadable(s, q) ==>
               LoadPage(s', q) == if Shares(s, PageAt(a, k), q)
                                  then Overwrite(LoadPage(s, PageAt(a, k)), Offset(a, k), Chunk(data, a, k))
                                  else LoadPage(s, q)
    ensures Loadable(s', PageAt(a, i)) && o < PAGE_SIZE && LoadPage(s', PageAt(a, i))[o] == ByteFor(data, a, i, o)
  {
    ChunkFits(a, |data|, i);
    var p, q := PageAt(a, k), PageAt(a, i);
    if Shares(s, p, q) {
      OverwriteAt(LoadPage(s, p), a, data, k, o);
      SharedContent(s, p, q);
      assert Shares(s0, p, q);
    }
    hide Overwrite;
  }

  lemma {:induction false} StoresRun(s0: Memory, a: nat, data: seq<Byte>, k: nat)
    requires k <= Span(a, |data|) && AllLoadable(s0, a / PAGE_SIZE, Span(a, |data|))
    ensures var s := Run(s0, StoreEdits(a, data)[..k]);
            && SameSharing(s0, s)
            && OthersKept(s0, s, a, k)
            && (AgreementIn(s0, a, data) ==> Written(s, a, data, k))
    decreases k
  {
    hide Apply, Offset, Chunk, SameSharing, OthersKept, Written, AgreementIn, Loadable;
    var edits := StoreEdits(a, data);
    if k == 0 {
      assert edits[..k] == [];
      NothingStored(s0, a, data);
    } else {
      StoresRun(s0, a, data, k - 1);
      RunPrefix(s0, edits, k);
      FewerLoadable(s0, a / PAGE_SIZE, Span(a, |data|), k - 1);
      StoreStep(s0, Run(s0, edits[..k - 1]), a, data, k - 1);
    }
  }

  // ---- Byte by byte ----

  /** The k-th page's part of the range goes over offset `o` of page `q`. */
  ghost predicate Reaches(s0: Memory, a: nat, n: nat, k: nat, o: nat, q: nat) {
    Covers(a, n, k, o) && Shares(s0, PageAt(a, k), q)
  }

  /** It is the last of the first `k` parts to do so. */
  ghost predicate ReachesLast(s0: Memory, a: nat, n: nat, k: nat, i: nat, o: nat, q: nat) {
    i < k && Reaches(s0, a, n, i, o, q) && forall j: nat :: i < j < k ==> !Reaches(s0, a, n, j, o, q)
  }

  ghost predicate ReachedByNone(s0: Memory, a: nat, n: nat, k: nat, o: nat, q: nat) {
    forall i: nat :: i < k ==> !Reaches(s0, a, n, i, o, q)
  }

  /** After the first `k` parts each byte is that of the last part that goes over it, or what it was. */
  ghost predicate StoredBytes(s0: Memory, s: Memory, a: nat, data: seq<Byte>, k: nat) {
    forall q: nat, o: nat :: Loadable(s0, q) && o < PAGE_SIZE ==> StoredByte(s0, s, a, data, k, q, o)
  }

  ghost predicate StoredByte(s0: Memory, s: Memory, a: nat, data: seq<Byte>, k: nat, q: nat, o: nat)
    requires Loadable(s0, q) && o < PAGE_SIZE
  {
    && Loadable(s, q)
    && (forall i: nat :: ReachesLast(s0, a, |data|, k, i, o, q) ==> LoadPage(s, q)[o] == ByteFor(data, a, i, o))
    && (ReachedByNone(s0, a, |data|, k, o, q) ==> LoadPage(s, q)[o] == LoadPage(s0, q)[o])
  }

  /** One more part. */
  lemma ReachesMore(s0: Memory, a: nat, n: nat, k: nat, next: nat, o: nat, q: nat)
    requires next == k + 1
    ensures Reaches(s0, a, n, k, o, q) ==> !ReachedByNone(s0, a, n, next, o, q)
    ensures Reaches(s0, a, n, k, o, q) ==> forall i: nat :: ReachesLast(s0, a, n, next, i, o, q) ==> i == k
    ensures !Reaches(s0, a, n, k, o, q) ==>
              && (forall i: nat :: ReachesLast(s0, a, n, next, i, o, q) ==> ReachesLast(s0, a, n, k, i, o, q))
              && (ReachedByNone(s0, a, n, next, o, q) ==> ReachedByNone(s0, a, n, k, o, q))
  {
    hide Reaches;
    forall i: nat | ReachesLast(s0, a, n, next, i, o, q) && !Reaches(s0, a, n, k, o, q)
      ensures ReachesLast(s0, a, n, k, i, o, q)
    {
      assert i != k;
    }
  }

  lemma StoredByteStep(s0: Memory, s: Memory, s': Memory, a: nat, data: seq<Byte>, k: nat, q: nat, o: nat)
    requires Loadable(s0, q) && o < PAGE_SIZE && StoredByte(s0, s, a, data, k, q, o)
    requires SameSharing(s0, s) && SameSharing(s, s') && k < Span(a, |data|) && Loadable(s, PageAt(a, k))
    requires Offset(a, k) + |Chunk(data, a, k)| <= PAGE_SIZE
    requires LoadPage(s', q) == if Shares(s, PageAt(a, k), q)
                                then Overwrite(LoadPage(s, PageAt(a, k)), Offset(a, k), Chunk(data, a, k))
                                else LoadPage(s, q)
    ensures StoredByte(s0, s', a, data, k + 1, q, o)
  {
    hide Overwrite, LoadPage, ReachesLast, ReachedByNone, Covers, Chunk, Offset;
    var p := PageAt(a, k);
    SharingLoadable(s, s', q);
    SameShare(s0, s, p, q);
    ReachesMore(s0, a, |data|, k, k + 1, o, q);
    OverwriteAt(LoadPage(s, p), a, data, k, o);
    if Shares(s, p, q) {
      SharedContent(s, p, q);
    }
  }

  lemma SameShare(s0: Memory, s: Memory, p: nat, q: nat)
    requires SameSharing(s0, s)
    ensures Shares(s, p, q) <==> Shares(s0, p, q)
  {
  }

  lemma {:induction false} StoresRunBytes(s0: Memory, a: nat, data: seq<Byte>, k: nat)
    requires k <= Span(a, |data|) && AllLoadable(s0, a / PAGE_SIZE, Span(a, |data|))
    ensures StoredBytes(s0, Run(s0, StoreEdits(a, data)[..k]), a, data, k)
    decreases k
  {
    hide Apply, Offset, Chunk, SameSharing, OthersKept, Written, AgreementIn, StoredByte, Loadable, LoadPage, Overwrite, Shares;
    var edits := StoreEdits(a, data);
    if k == 0 {
      assert edits[..k] == [];
      forall q: nat, o: nat | Loadable(s0, q) && o < PAGE_SIZE ensures StoredByte(s0, s0, a, data, 0, q, o) {
        NoByteStored(s0, a, data, q, o);
      }
    } else {
      var s := Run(s0, edits[..k - 1]);
      StoresRun(s0, a, data, k - 1);
      StoresRunBytes(s0, a, data, k - 1);
      RunPrefix(s0, edits, k);
      FewerLoadable(s0, a / PAGE_SIZE, Span(a, |data|), k - 1);
      SharingLoadable(s0, s, PageAt(a, k - 1));
      ChunkLength(a, data, k - 1);
      StoreFacts(s, PageAt(a, k - 1), Offset(a, k - 1), Chunk(data, a, k - 1));
      forall q: nat, o: nat | Loadable(s0, q) && o < PAGE_SIZE
        ensures StoredByte(s0, Run(s0, edits[..k]), a, data, k, q, o)
      {
        SharingLoadable(s0, s, q);
        StoredByteStep(s0, s, Run(s0, edits[..k]), a, data, k - 1, q, o);
      }
    }
  }

  lemma NoByteStored(s0: Memory, a: nat, data: seq<Byte>, q: nat, o: nat)
    requires Loadable(s0, q) && o < PAGE_SIZE
    ensures StoredByte(s0, s0, a, data, 0, q, o)
  {
  }

  lemma NothingStored(s0: Memory, a: nat, data: seq<Byte>)
    ensures SameSharing(s0, s0) && OthersKept(s0, s0, a, 0) && Written(s0, a, data, 0)
  {
  }

  /** A read returns the caller's bytes exactly when every covered byte of every page holds them. */
  lemma {:induction false} GatheredMatches(s: Memory, a: nat, data: seq<Byte>, k: nat)
    requires k <= Span(a, |data|) && AllLoadable(s, a / PAGE_SIZE, k)
    ensures Gathered(s, a, |data|, k) == data[..Start(a, |data|, k)] <==> Written(s, a, data, k)
    ensures |Gathered(s, a, |data|, k)| == Start(a, |data|, k) <= |data|
    decreases k
  {
    if k > 0 {
      var j, n := k - 1, |data|;
      FewerLoadable(s, a / PAGE_SIZE, k, j);
      GatheredMatches(s, a, data, j);
      ChunkFits(a, n, j);
      var slice := Slice(LoadPage(s, PageAt(a, j)), a, n, j);
      assert Gathered(s, a, n, k) == Gathered(s, a, n, j) + slice;
      SliceMatches(s, a, data, j);
      assert data[..Start(a, n, k)] == data[..Start(a, n, j)] + Chunk(data, a, j);
      WrittenGrows(s, a, data, j);
    }
  }

  ghost predicate WrittenPage(s: Memory, a: nat, data: seq<Byte>, j: nat) {
    forall o: nat :: Covers(a, |data|, j, o) ==>
      Loadable(s, PageAt(a, j)) && o < PAGE_SIZE && LoadPage(s, PageAt(a, j))[o] == ByteFor(data, a, j, o)
  }

  lemma WrittenGrows(s: Memory, a: nat, data: seq<Byte>, j: nat)
    ensures Written(s, a, data, j + 1) <==> Written(s, a, data, j) && WrittenPage(s, a, data, j)
  {
  }

  lemma SliceMatches(s: Memory, a: nat, data: seq<Byte>, j: nat)
    requires j < Span(a, |data|) && Loadable(s, PageAt(a, j))
    ensures |Slice(LoadPage(s, PageAt(a, j)), a, |data|, j)| == |Chunk(data, a, j)|
    ensures Slice(LoadPage(s, PageAt(a, j)), a, |data|, j) == Chunk(data, a, j) <==> WrittenPage(s, a, data, j)
  {
    ChunkFits(a, |data|, j);
    var page := LoadPage(s, PageAt(a, j));
    var slice, chunk := Slice(page, a, |data|, j), Chunk(data, a, j);
    if WrittenPage(s, a, data, j) {
      forall x | 0 <= x < |slice| ensures slice[x] == chunk[x] {
        assert Covers(a, |data|, j, Offset(a, j) + x);
      }
    } else {
      var o: nat :| Covers(a, |data|, j, o) && page[o] != ByteFor(data, a, j, o);
      assert slice[o - Offset(a, j)] != chunk[o - Offset(a, j)];
    }
  }

  lemma WrittenImpliesAgreement(s0: Memory, s: Memory, a: nat, data: seq<Byte>)
    requires SameSharing(s0, s) && Written(s, a, data, Span(a, |data|))
    ensures AgreementIn(s0, a, data)
  {
    forall i: nat, j: nat, o: nat
      | Covers(a, |data|, i, o) && Covers(a, |data|, j, o) && Shares(s0, PageAt(a, i), PageAt(a, j))
      ensures ByteFor(data, a, i, o) == ByteFor(data, a, j, o)
    {
      assert Shares(s, PageAt(a, i), PageAt(a, j));
      SharedContent(s, PageAt(a, i), PageAt(a, j));
    }
  }

  // ---- The calls ----

  lemma AllowedIsLoadable(m: Memory, first: nat, count: nat, write: bool, execute: bool)
    requires Inv(m) && CheckAccess(m, first, count, write, execute) == Ok
    ensures AllLoadable(m, first, count)
  {
    forall p: nat | InRange(p, first, count) ensures Loadable(m, p) {
      assert AccessError(m, p, write, execute) == Ok;
      MappedIsBacked(m, p);
    }
  }

  /** Page `q` shows no byte of any page of the range. */
  ghost predicate Apart(m: Memory, first: nat, count: nat, q: nat) {
    Loadable(m, q) && forall p: nat :: InRange(p, first, count) ==> !SharesAfter(m, first, count, p, q)
  }

  /**
   What a write does.  Reading the range back gives the written bytes exactly when pages of the range
   that share storage were given the same bytes.  A page that shares with a written page shows the same
   new content; a page that shares with none, in particular another alias of a write-copy page, keeps its own.
   */
  ghost predicate WriteEffect(m: Memory, m': Memory, a: nat, data: seq<Byte>) {
    var first, count := a / PAGE_SIZE, Span(a, |data|);
    && m'.pages.Keys == m.pages.Keys
    && AllLoadable(m', first, count)
    && (Gathered(m', a, |data|, count) == data <==> Agreement(m, a, data))
    && (forall p: nat, q: nat :: InRange(p, first, count) && SharesAfter(m, first, count, p, q) ==>
          Loadable(m', p) && Loadable(m', q) && LoadPage(m', q) == LoadPage(m', p))
    && (forall q: nat :: Apart(m, first, count, q) ==> Loadable(m', q) && LoadPage(m', q) == LoadPage(m, q))
  }

  // ---- Protections after an access ----

  /** What becomes of a write-copy page: plain writable, executable still if it was. */
  ghost predicate ProtectionSettled(before: Protection, after: Protection) {
    && (before.access == 0x08 ==> after == Protection(0x04, false))
    && (before.access == 0x80 ==> after == Protection(0x40, false))
  }

  /** A write ends the write-copy state of every page it touches, a read only of caller-owned ones; no other protection changes. */
  ghost predicate ProtectionsAfter(m: Memory, m': Memory, a: nat, n: nat, write: bool) {
    && m'.pages.Keys == m.pages.Keys
    && forall p: nat :: p in m.pages ==> PageProtected(m, m', p, Touched(a, n, p), write)
  }

  ghost predicate PageProtected(m: Memory, m': Memory, p: nat, touched: bool, write: bool)
    requires p in m.pages && p in m'.pages
  {
    if touched && m.pages[p].protection.access in {0x08, 0x80} && (write || BorrowedWriteCopy(m, p))
    then ProtectionSettled(m.pages[p].protection, m'.pages[p].protection)
    else m'.pages[p].protection == m.pages[p].protection
  }

  /** The same after the first `k` pages of the range have been prepared. */
  ghost predicate ProtectedPages(m: Memory, s: Memory, first: nat, write: bool, k: nat) {
    && s.pages.Keys == m.pages.Keys
    && forall p: nat :: p in m.pages ==> PageProtected(m, s, p, InRange(p, first, k), write)
  }

  lemma PreparedMore(m: Memory, s: Memory, s': Memory, first: nat, write: bool, k: nat)
    requires ProtectedPages(m, s, first, write, k) && s'.pages.Keys == s.pages.Keys && first + k in m.pages
    requires forall q: nat :: q in s.pages && q != first + k ==> s'.pages[q].protection == s.pages[q].protection
    requires PageProtected(m, s', first + k, true, write)
    ensures ProtectedPages(m, s', first, write, k + 1)
  {
    StepRange(first, k);
    forall p: nat | p in m.pages ensures PageProtected(m, s', p, InRange(p, first, k + 1), write) {
      assert PageProtected(m, s, p, InRange(p, first, k), write);
    }
  }

  lemma DetachProtects(s: Memory, p: nat, cell: Fresh)
    requires Enabled(s, Detach(p, cell))
    ensures var s' := Apply(s, Detach(p, cell));
            && s'.pages.Keys == s.pages.Keys && s.pages[p].protection.access in {0x08, 0x80}
            && ProtectionSettled(s.pages[p].protection, s'.pages[p].protection)
            && (forall q: nat :: q in s.pages && q != p ==> s'.pages[q].protection == s.pages[q].protection)
  {
  }

  lemma PromoteProtects(s: Memory, p: nat)
    requires Enabled(s, PromoteExternal(p))
    ensures var s' := Apply(s, PromoteExternal(p));
            && s'.pages.Keys == s.pages.Keys && s.pages[p].protection.access in {0x08, 0x80}
            && ProtectionSettled(s.pages[p].protection, s'.pages[p].protection)
            && (forall q: nat :: q in s.pages && q != p ==> s'.pages[q].protection == s.pages[q].protection)
  {
  }

  /** The page about to be prepared is as it was before the access. */
  lemma StillToPrepare(m: Memory, s: Memory, first: nat, cells: seq<Fresh>, write: bool, k: nat)
    requires Inv(s) && ContentKept(m, s) && PromotedPages(m, s, first, cells, write, k) && k < |cells| && Loadable(m, first + k)
    ensures Backed(s, first + k) && s.pages[first + k] == m.pages[first + k]
    ensures s.backings[BackingOf(s, first + k)].data.External? == m.backings[BackingOf(m, first + k)].data.External?
    ensures write && IsFresh(m, cells[k]) ==> IsFresh(s, cells[k])
  {
    assert Loadable(s, first + k);
  }

  lemma ProtectedStep(m: Memory, s: Memory, first: nat, cells: seq<Fresh>, write: bool, k: nat)
    requires Inv(m) && Inv(s) && ContentKept(m, s) && PromotedPages(m, s, first, cells, write, k)
    requires k < |cells| && (write ==> Allocated(m, cells)) && Loadable(m, first + k)
    requires ProtectedPages(m, s, first, write, k)
    ensures ProtectedPages(m, Run(s, PromoteEdit(m, first + k, write, cells[k])), first, write, k + 1)
  {
    hide Inv, Run, Apply, ContentKept, PromotedPages, ProtectedPages;
    var p := first + k;
    StillToPrepare(m, s, first, cells, write, k);
    NoEdits(s);
    OneEdit(s, PromoteExternal(p));
    OneEdit(s, Detach(p, cells[k]));
    if Enabled(s, PromoteExternal(p)) {
      PromoteProtects(s, p);
    }
    if Enabled(s, Detach(p, cells[k])) {
      DetachProtects(s, p, cells[k]);
    }
    ProtectedKeys(m, s, first, write, k);
    PreparedMore(m, s, Run(s, PromoteEdit(m, p, write, cells[k])), first, write, k);
  }

  lemma ProtectedKeys(m: Memory, s: Memory, first: nat, write: bool, k: nat)
    requires ProtectedPages(m, s, first, write, k)
    ensures s.pages.Keys == m.pages.Keys
  {
  }

  lemma {:induction false} ProtectedRun(m: Memory, first: nat, cells: seq<Fresh>, write: bool, k: nat)
    requires Inv(m) && k <= |cells| && (write ==> Allocated(m, cells)) && AllLoadable(m, first, |cells|)
    ensures ProtectedPages(m, Run(m, PromoteEdits(m, first, cells, write, k)), first, write, k)
    decreases k
  {
    hide Inv, Apply, ContentKept, PromotedPages, Allocated, PromoteEdit, ProtectedPages;
    if k == 0 {
      assert ProtectedPages(m, m, first, write, 0) by { NonePrepared(m, first, write); }
    } else {
      ProtectedRun(m, first, cells, write, k - 1);
      FewerLoadable(m, first, |cells|, k - 1);
      if write {
        FreshIds(m, cells);
      }
      PromoteRun(m, first, cells, write, k - 1);
      RunAppend(m, PromoteEdits(m, first, cells, write, k - 1), PromoteEdit(m, first + (k - 1), write, cells[k - 1]));
      ProtectedStep(m, Run(m, PromoteEdits(m, first, cells, write, k - 1)), first, cells, write, k - 1);
    }
  }

  lemma FreshIds(m: Memory, cells: seq<Fresh>)
    requires Allocated(m, cells)
    ensures forall j :: 0 <= j < |cells| ==> cells[j].id !in m.backings
  {
  }

  lemma NonePrepared(m: Memory, first: nat, write: bool)
    ensures ProtectedPages(m, m, first, write, 0)
  {
  }

  /** Stores change no protection. */
  lemma {:induction false} StoresProtect(s: Memory, edits: seq<Edit>)
    requires forall i :: 0 <= i < |edits| ==> edits[i].Store?
    ensures Run(s, edits).pages.Keys == s.pages.Keys
    ensures forall q: nat :: q in s.pages ==> Run(s, edits).pages[q].protection == s.pages[q].protection
    decreases |edits|
  {
    hide Apply;
    if edits != [] {
      StoreProtects(s, edits[0]);
      StoresProtect(Apply(s, edits[0]), edits[1..]);
    }
  }

  lemma StoreProtects(s: Memory, e: Edit)
    requires e.Store?
    ensures Apply(s, e).pages.Keys == s.pages.Keys
    ensures forall q: nat :: q in s.pages ==> Apply(s, e).pages[q].protection == s.pages[q].protection
  {
    if Enabled(s, e) {
      hide StoreThrough, Overwrite;
      StoreStamps(s, e.page, Overwrite(Contents(s, BackingOf(s, e.page)), e.offset, e.bytes));
    }
  }

  // ---- What a write leaves, address by address ----

  /** Byte `x` of the data goes over offset `o` of page `q`. */
  ghost predicate ByteReaches(m: Memory, a: nat, n: nat, x: nat, o: nat, q: nat) {
    x < n && (a + x) % 4096 == o && SharesAfter(m, a / 4096, Span(a, n), (a + x) / 4096, q)
  }

  /** It is the last to do so. */
  ghost predicate ByteReachesLast(m: Memory, a: nat, n: nat, x: nat, o: nat, q: nat) {
    ByteReaches(m, a, n, x, o, q) && forall y: nat :: y > x ==> !ByteReaches(m, a, n, y, o, q)
  }

  ghost predicate NoByteReaches(m: Memory, a: nat, n: nat, o: nat, q: nat) {
    forall x: nat :: !ByteReaches(m, a, n, x, o, q)
  }

  /**
   Memory after a write: each byte of each page is the last byte written to an address that shares its place, and
   what it was if there is none.
   */
  ghost predicate BytesAfterWrite(m: Memory, m': Memory, a: nat, data: seq<Byte>) {
    forall q: nat, o: nat :: Loadable(m, q) && o < 4096 ==> ByteAfterWrite(m, m', a, data, q, o)
  }

  ghost predicate ByteAfterWrite(m: Memory, m': Memory, a: nat, data: seq<Byte>, q: nat, o: nat)
    requires Loadable(m, q) && o < 4096
  {
    && Loadable(m', q)
    && (forall x: nat :: ByteReachesLast(m, a, |data|, x, o, q) ==> LoadPage(m', q)[o] == data[x])
    && (NoByteReaches(m, a, |data|, o, q) ==> LoadPage(m', q)[o] == LoadPage(m, q)[o])
  }

  /** The byte of the data that a part of the range puts at an offset, and where that is. */
  lemma CoveredIndex(data: seq<Byte>, a: nat, i: nat, o: nat)
    requires Covers(a, |data|, i, o)
    ensures var x := Start(a, |data|, i) + (o - Offset(a, i));
            x < |data| && (a + x) / 4096 == PageAt(a, i) && (a + x) % 4096 == o && data[x] == ByteFor(data, a, i, o)
  {
    ChunkFits(a, |data|, i);
  }

  lemma IndexCovered(data: seq<Byte>, a: nat, x: nat)
    requires x < |data|
    ensures var i: nat := (a + x) / 4096 - a / 4096; var o := (a + x) % 4096;
            Covers(a, |data|, i, o) && PageAt(a, i) == (a + x) / 4096 && x == Start(a, |data|, i) + (o - Offset(a, i))
  {
  }

  lemma ReachesAsBytes(
    m: Memory, s0: Memory, a: nat, data: seq<Byte>, cells: seq<Fresh>, o: nat, q: nat, i: nat)
    returns (x: nat)
    requires |cells| == Span(a, |data|) && Allocated(m, cells) && Inv(s0) && Loadable(m, q)
    requires AllLoadable(m, a / PAGE_SIZE, |cells|)
    requires ContentKept(m, s0) && PromotedPages(m, s0, a / PAGE_SIZE, cells, true, |cells|)
    requires Reaches(s0, a, |data|, i, o, q)
    ensures Covers(a, |data|, i, o) && ByteReaches(m, a, |data|, x, o, q) && x == Start(a, |data|, i) + (o - Offset(a, i))
  {
    hide Inv, Span, PromotedPages, Allocated, Shares, SharesAfter, ContentKept, Loadable, Start, Offset;
    CoveredIndex(data, a, i, o);
    x := Start(a, |data|, i) + (o - Offset(a, i));
    FewerLoadable(m, a / PAGE_SIZE, |cells|, i);
    SharingAfterPromotion(m, s0, a / PAGE_SIZE, cells, PageAt(a, i), q);
  }

  lemma BytesAsReaches(
    m: Memory, s0: Memory, a: nat, data: seq<Byte>, cells: seq<Fresh>, o: nat, q: nat, x: nat)
    requires |cells| == Span(a, |data|) && Allocated(m, cells) && Inv(s0) && Loadable(m, q)
    requires AllLoadable(m, a / PAGE_SIZE, |cells|)
    requires ContentKept(m, s0) && PromotedPages(m, s0, a / PAGE_SIZE, cells, true, |cells|)
    requires ByteReaches(m, a, |data|, x, o, q)
    ensures var i: nat := (a + x) / 4096 - a / 4096;
            Reaches(s0, a, |data|, i, o, q) && data[x] == ByteFor(data, a, i, o) && x == Start(a, |data|, i) + (o - Offset(a, i))
  {
    hide Inv, Span, PromotedPages, Allocated, Shares, SharesAfter, ContentKept, Loadable, Start, Offset;
    IndexCovered(data, a, x);
    var i: nat := (a + x) / 4096 - a / 4096;
    CoveredIndex(data, a, i, o);
    FewerLoadable(m, a / PAGE_SIZE, |cells|, i);
    SharingAfterPromotion(m, s0, a / PAGE_SIZE, cells, PageAt(a, i), q);
  }

  /** From the parts of the range to the addresses in it. */
  lemma ByteConcludes(
    m: Memory, s0: Memory, m': Memory, a: nat, data: seq<Byte>, cells: seq<Fresh>, q: nat, o: nat)
    requires |cells| == Span(a, |data|) && Allocated(m, cells) && Inv(s0) && Loadable(m, q) && o < PAGE_SIZE
    requires AllLoadable(m, a / PAGE_SIZE, |cells|)
    requires ContentKept(m, s0) && PromotedPages(m, s0, a / PAGE_SIZE, cells, true, |cells|)
    requires Loadable(s0, q) && LoadPage(s0, q) == LoadPage(m, q) && StoredByte(s0, m', a, data, |cells|, q, o)
    ensures ByteAfterWrite(m, m', a, data, q, o)
  {
    hide Inv, Span, PromotedPages, Allocated, Reaches, ByteReaches, ContentKept, AllLoadable, Start, Offset, ByteFor, Covers;
    forall x: nat | ByteReachesLast(m, a, |data|, x, o, q) ensures x < |data| && LoadPage(m', q)[o] == data[x] {
      ReachedIndex(m, a, |data|, x, o, q);
      BytesAsReaches(m, s0, a, data, cells, o, q, x);
      var i: nat := (a + x) / 4096 - a / 4096;
      ReachedPart(s0, a, |data|, i, o, q);
      forall j: nat | i < j < |cells| ensures !Reaches(s0, a, |data|, j, o, q) {
        if Reaches(s0, a, |data|, j, o, q) {
          var y := ReachesAsBytes(m, s0, a, data, cells, o, q, j);
          LaterPart(a, |data|, i, j, o);
        }
      }
      assert ReachesLast(s0, a, |data|, |cells|, i, o, q);
    }
    if NoByteReaches(m, a, |data|, o, q) {
      forall i: nat | i < |cells| ensures !Reaches(s0, a, |data|, i, o, q) {
        if Reaches(s0, a, |data|, i, o, q) {
          var y := ReachesAsBytes(m, s0, a, data, cells, o, q, i);
        }
      }
    }
  }

  lemma ReachedIndex(m: Memory, a: nat, n: nat, x: nat, o: nat, q: nat)
    requires ByteReaches(m, a, n, x, o, q)
    ensures x < n
  {
  }

  lemma ReachedPart(s0: Memory, a: nat, n: nat, i: nat, o: nat, q: nat)
    requires Reaches(s0, a, n, i, o, q)
    ensures i < Span(a, n) && Covers(a, n, i, o)
  {
  }

  lemma LaterPart(a: nat, n: nat, i: nat, j: nat, o: nat)
    requires i < j && Covers(a, n, i, o) && Covers(a, n, j, o)
    ensures Start(a, n, i) + (o - Offset(a, i)) < Start(a, n, j) + (o - Offset(a, j))
  {
  }

  /** All of a write's bytes and protections, from the parts it is made of. */
  lemma WriteInBytes(m: Memory, a: nat, data: seq<Byte>, cells: seq<Fresh>)
    requires Inv(m) && |cells| == Span(a, |data|) && Allocated(m, cells) && data != []
    requires AllLoadable(m, a / PAGE_SIZE, Span(a, |data|))
    ensures var m' := Run(m, PromoteEdits(m, a / PAGE_SIZE, cells, true, |cells|) + StoreEdits(a, data));
            BytesAfterWrite(m, m', a, data) && ProtectionsAfter(m, m', a, |data|, true)
  {
    hide Inv, Run, PromoteEdits, Span, StoreEdits, ContentKept, PromotedPages, AllLoadable, Allocated, ByteAfterWrite, StoredByte,
         LoadPage, Touched, PageProtected, StoredBytes;
    var first, count := a / PAGE_SIZE, |cells|;
    var s0 := Run(m, PromoteEdits(m, first, cells, true, count));
    var m' := Run(m, PromoteEdits(m, first, cells, true, count) + StoreEdits(a, data));
    FreshIds(m, cells);
    PromoteRun(m, first, cells, true, count);
    ProtectedRun(m, first, cells, true, count);
    PromotedLoadable(m, s0, first, count);
    StoresRunBytes(s0, a, data, count);
    StoreCount(a, data);
    assert StoreEdits(a, data)[..count] == StoreEdits(a, data);
    RunAppend(m, PromoteEdits(m, first, cells, true, count), StoreEdits(a, data));
    forall q: nat, o: nat | Loadable(m, q) && o < 4096 ensures ByteAfterWrite(m, m', a, data, q, o) {
      KeptPage(m, s0, q);
      AllStored(s0, m', a, data, count, q, o);
      ByteConcludes(m, s0, m', a, data, cells, q, o);
    }
    OnlyStores(a, data);
    StoresProtect(s0, StoreEdits(a, data));
    SpanIsTouched(a, |data|);
    ProtectedAsTouched(m, s0, m', a, |data|, true);
  }

  lemma KeptPage(m: Memory, s: Memory, q: nat)
    requires ContentKept(m, s) && Loadable(m, q)
    ensures Loadable(s, q) && LoadPage(s, q) == LoadPage(m, q)
  {
  }

  lemma AllStored(s0: Memory, s: Memory, a: nat, data: seq<Byte>, k: nat, q: nat, o: nat)
    requires StoredBytes(s0, s, a, data, k) && Loadable(s0, q) && o < PAGE_SIZE
    ensures StoredByte(s0, s, a, data, k, q, o)
  {
  }

  lemma OnlyStores(a: nat, data: seq<Byte>)
    ensures forall i :: 0 <= i < |StoreEdits(a, data)| ==> StoreEdits(a, data)[i].Store?
  {
  }

  lemma ProtectedAsTouched(m: Memory, s: Memory, m': Memory, a: nat, n: nat, write: bool)
    requires n > 0 && ProtectedPages(m, s, a / PAGE_SIZE, write, Span(a, n)) && m'.pages.Keys == s.pages.Keys
    requires forall q: nat :: q in s.pages ==> m'.pages[q].protection == s.pages[q].protection
    ensures ProtectionsAfter(m, m', a, n, write)
  {
    hide Span, Touched;
    SpanIsTouched(a, n);
    forall p: nat | p in m.pages ensures PageProtected(m, m', p, Touched(a, n, p), write) {
      assert PageProtected(m, s, p, InRange(p, a / PAGE_SIZE, Span(a, n)), write);
    }
  }

  /** A successful write, whatever guards, aliases and write-copy pages the range has. */
  lemma WriteCall(m: Memory, a: nat, data: seq<Byte>, consumeGuard: bool, scratch: bool, cells: Option<seq<Fresh>>)
    requires Inv(m)
    requires cells.Some? ==> |cells.value| == Span(a, |data|) && Allocated(m, cells.value)
    requires AccessPlan(m, a, |data|, Write(data), consumeGuard, scratch, cells).error == Ok && data != []
    ensures var m' := Run(m, AccessPlan(m, a, |data|, Write(data), consumeGuard, scratch, cells).edits);
            && Inv(m') && WriteEffect(m, m', a, data)
            && BytesAfterWrite(m, m', a, data) && ProtectionsAfter(m, m', a, |data|, true)
  {
    hide Inv, Run, CheckAccess, PromoteEdits, StoreEdits, Span, Allocated, WriteEffect, BytesAfterWrite, ProtectionsAfter;
    var first, count := a / PAGE_SIZE, Span(a, |data|);
    InvOverRun(m, AccessPlan(m, a, |data|, Write(data), consumeGuard, scratch, cells).edits);
    AllowedIsLoadable(m, first, count, true, false);
    WriteRun(m, a, data, cells.value);
    WriteInBytes(m, a, data, cells.value);
  }

  lemma WriteRun(m: Memory, a: nat, data: seq<Byte>, cells: seq<Fresh>)
    requires Inv(m) && |cells| == Span(a, |data|) && Allocated(m, cells)
    requires AllLoadable(m, a / PAGE_SIZE, Span(a, |data|))
    ensures WriteEffect(
              m, Run(m, PromoteEdits(m, a / PAGE_SIZE, cells, true, |cells|) + StoreEdits(a, data)), a, data)
  {
    hide Inv, Run, PromoteEdits, Span, WriteEffect, ContentKept, PromotedPages, SameSharing, OthersKept, Written,
         AgreementIn, Loadable;
    var first, count := a / PAGE_SIZE, |cells|;
    var s0 := Run(m, PromoteEdits(m, first, cells, true, count));
    PromoteRun(m, first, cells, true, count);
    PromotedLoadable(m, s0, first, count);
    StoresRun(s0, a, data, count);
    assert StoreEdits(a, data)[..count] == StoreEdits(a, data);
    RunAppend(m, PromoteEdits(m, first, cells, true, count), StoreEdits(a, data));
    WriteConcludes(m, s0, Run(s0, StoreEdits(a, data)), a, data, cells);
  }

  lemma PromotedLoadable(m: Memory, s0: Memory, first: nat, count: nat)
    requires ContentKept(m, s0) && AllLoadable(m, first, count)
    ensures AllLoadable(s0, first, count)
  {
  }

  /** From the promoted state and the stored state to the effect as seen from before the call. */
  lemma WriteConcludes(m: Memory, s0: Memory, m': Memory, a: nat, data: seq<Byte>, cells: seq<Fresh>)
    requires |cells| == Span(a, |data|) && Allocated(m, cells) && Inv(s0)
    requires AllLoadable(m, a / PAGE_SIZE, |cells|) && AllLoadable(s0, a / PAGE_SIZE, |cells|)
    requires ContentKept(m, s0) && PromotedPages(m, s0, a / PAGE_SIZE, cells, true, |cells|)
    requires SameSharing(s0, m') && OthersKept(s0, m', a, |cells|)
    requires AgreementIn(s0, a, data) ==> Written(m', a, data, |cells|)
    ensures WriteEffect(m, m', a, data)
  {
    hide Inv, Span, PromotedPages, Allocated, Written, Agreement, AgreementIn, Shares, SharesAfter;
    var first, count := a / PAGE_SIZE, |cells|;
    assert AllLoadable(m', first, count);
    ReadBackExactly(m, s0, m', a, data, cells);
    forall p: nat, q: nat | InRange(p, first, count) && SharesAfter(m, first, count, p, q)
      ensures Loadable(m', p) && Loadable(m', q) && LoadPage(m', q) == LoadPage(m', p)
    {
      AfterLoadable(m, first, count, p, q);
      SharingAfterPromotion(m, s0, first, cells, p, q);
      SharedContent(m', p, q);
    }
    forall q: nat | Apart(m, first, count, q) ensures Loadable(m', q) && LoadPage(m', q) == LoadPage(m, q) {
      assert Loadable(s0, q);
      forall i: nat | i < count ensures !Shares(s0, PageAt(a, i), q) {
        assert InRange(PageAt(a, i), first, count);
        SharingAfterPromotion(m, s0, first, cells, PageAt(a, i), q);
      }
    }
  }

  lemma AfterLoadable(m: Memory, first: nat, count: nat, p: nat, q: nat)
    requires SharesAfter(m, first, count, p, q)
    ensures Loadable(m, p) && Loadable(m, q)
  {
  }

  lemma ReadBackExactly(m: Memory, s0: Memory, m': Memory, a: nat, data: seq<Byte>, cells: seq<Fresh>)
    requires |cells| == Span(a, |data|) && Allocated(m, cells) && Inv(s0)
    requires AllLoadable(m, a / PAGE_SIZE, |cells|) && AllLoadable(m', a / PAGE_SIZE, |cells|)
    requires ContentKept(m, s0) && PromotedPages(m, s0, a / PAGE_SIZE, cells, true, |cells|)
    requires SameSharing(s0, m')
    requires AgreementIn(s0, a, data) ==> Written(m', a, data, |cells|)
    ensures Gathered(m', a, |data|, |cells|) == data <==> Agreement(m, a, data)
  {
    hide Inv, PromotedPages, Allocated, Written, Shares, SharesAfter, SameSharing, ContentKept;
    GatheredMatches(m', a, data, |cells|);
    if data != [] {
      ChunkFits(a, |data|, |cells| - 1);
    }
    assert data[..Start(a, |data|, |cells|)] == data;
    SameAgreement(m, s0, a, data, cells);
    if Written(m', a, data, |cells|) {
      WrittenImpliesAgreement(s0, m', a, data);
    }
  }

  lemma SameAgreement(m: Memory, s0: Memory, a: nat, data: seq<Byte>, cells: seq<Fresh>)
    requires |cells| == Span(a, |data|) && Allocated(m, cells) && Inv(s0)
    requires AllLoadable(m, a / PAGE_SIZE, |cells|)
    requires ContentKept(m, s0) && PromotedPages(m, s0, a / PAGE_SIZE, cells, true, |cells|)
    ensures Agreement(m, a, data) <==> AgreementIn(s0, a, data)
  {
    hide Inv, PromotedPages, Allocated, Shares, SharesAfter, ContentKept, Loadable;
    var first, count := a / PAGE_SIZE, |cells|;
    forall i: nat, j: nat | i < count && j < count
      ensures Shares(s0, PageAt(a, i), PageAt(a, j)) <==> SharesAfter(m, first, count, PageAt(a, i), PageAt(a, j))
    {
      FewerLoadable(m, first, count, i);
      FewerLoadable(m, first, count, j);
      SharingAfterPromotion(m, s0, first, cells, PageAt(a, i), PageAt(a, j));
    }
  }

  /** A successful read moves nothing and copies out the range; only caller-owned pages stop being write-copy. */
  lemma ReadCall(m: Memory, a: nat, n: nat, kind: AccessKind, consumeGuard: bool, scratch: bool)
    requires Inv(m) && !kind.Write?
    requires AccessPlan(m, a, n, kind, consumeGuard, scratch, None).error == Ok
    ensures var m' := Run(m, AccessPlan(m, a, n, kind, consumeGuard, scratch, None).edits);
            && Inv(m') && ContentKept(m, m')
            && AllLoadable(m, a / PAGE_SIZE, Span(a, n)) && AllLoadable(m', a / PAGE_SIZE, Span(a, n))
            && Gathered(m', a, n, Span(a, n)) == Gathered(m, a, n, Span(a, n))
            && (kind.QueryExecute? ==> m' == m)
            && (!kind.QueryExecute? ==> ProtectionsAfter(m, m', a, n, false))
            && |Gathered(m, a, n, Span(a, n))| == n
            && forall x: nat :: x < n ==> ReadsAs(m, a + x, Gathered(m, a, n, Span(a, n))[x])
  {
    hide Inv, Run, CheckAccess, PromoteEdits, Span, ContentKept, FirstGuard, ProtectionsAfter, Gathered, LoadPage, ProtectedPages,
         ReadsAs;
    var plan := AccessPlan(m, a, n, kind, consumeGuard, scratch, None);
    var first, count := a / PAGE_SIZE, Span(a, n);
    NoEdits(m);
    SpanNone(a);
    KeptRefl(m);
    if n != 0 {
      AllowedIsLoadable(m, first, count, false, kind.Fetch? || kind.QueryExecute?);
      PromoteRun(m, first, seq(count, _ => Fresh(0, 0)), false, count);
      PromotedLoadable(m, Run(m, plan.edits), first, count);
      GatheredKept(m, Run(m, plan.edits), a, n, count);
      ProtectedRun(m, first, seq(count, _ => Fresh(0, 0)), false, count);
      if !kind.QueryExecute? {
        ProtectedKeys(m, Run(m, plan.edits), first, false, count);
        ProtectedAsTouched(m, Run(m, plan.edits), Run(m, plan.edits), a, n, false);
      }
      GatheredAddresses(m, a, n);
    } else {
      NothingTouched(m, a);
    }
  }

  /** The byte at an address. */
  ghost predicate ReadsAs(m: Memory, address: nat, v: Byte) {
    Loadable(m, address / 4096) && LoadPage(m, address / 4096)[address % 4096] == v
  }

  lemma NothingTouched(m: Memory, a: nat)
    ensures ProtectionsAfter(m, m, a, 0, false)
    ensures Gathered(m, a, 0, Span(a, 0)) == []
  {
  }

  /** What a read returns, address by address. */
  lemma GatheredAddresses(m: Memory, a: nat, n: nat)
    requires n > 0 && AllLoadable(m, a / PAGE_SIZE, Span(a, n))
    ensures |Gathered(m, a, n, Span(a, n))| == n
    ensures forall x: nat :: x < n ==> ReadsAs(m, a + x, Gathered(m, a, n, Span(a, n))[x])
  {
    hide Gathered, Loadable, Span, LoadPage, AllLoadable, Written, ReadsAs;
    SpanSomePages(a, n);
    var data := Gathered(m, a, n, Span(a, n));
    GatheredLength(m, a, n, Span(a, n));
    ChunkFits(a, n, Span(a, n) - 1);
    GatheredMatches(m, a, data, Span(a, n));
    assert data[..Start(a, n, Span(a, n))] == data;
    forall x: nat | x < n ensures ReadsAs(m, a + x, data[x]) {
      WrittenAddress(m, a, data, x);
    }
  }

  lemma SpanSomePages(a: nat, n: nat)
    requires n > 0
    ensures Span(a, n) > 0
  {
  }

  lemma {:induction false} GatheredLength(m: Memory, a: nat, n: nat, k: nat)
    requires k <= Span(a, n) && AllLoadable(m, a / PAGE_SIZE, k)
    ensures |Gathered(m, a, n, k)| == Start(a, n, k)
    decreases k
  {
    if k > 0 {
      FewerLoadable(m, a / PAGE_SIZE, k, k - 1);
      GatheredLength(m, a, n, k - 1);
      ChunkFits(a, n, k - 1);
    }
  }

  lemma WrittenAddress(m: Memory, a: nat, data: seq<Byte>, x: nat)
    requires x < |data| && Written(m, a, data, Span(a, |data|))
    ensures ReadsAs(m, a + x, data[x])
  {
    hide LoadPage, Span;
    IndexCovered(data, a, x);
    var i: nat := (a + x) / 4096 - a / 4096;
    CoveredIndex(data, a, i, (a + x) % 4096);
    PartInSpan(a, |data|, i, (a + x) % 4096);
  }

  lemma PartInSpan(a: nat, n: nat, i: nat, o: nat)
    requires Covers(a, n, i, o)
    ensures i < Span(a, n)
  {
  }

  lemma SpanNone(a: nat)
    ensures Span(a, 0) == 0
  {
  }

  lemma KeptRefl(m: Memory)
    ensures ContentKept(m, m)
  {
  }

  lemma {:induction false} GatheredKept(m: Memory, m': Memory, a: nat, n: nat, k: nat)
    requires ContentKept(m, m') && k <= Span(a, n)
    requires AllLoadable(m, a / PAGE_SIZE, k) && AllLoadable(m', a / PAGE_SIZE, k)
    ensures Gathered(m', a, n, k) == Gathered(m, a, n, k)
    decreases k
  {
    if k > 0 {
      FewerLoadable(m, a / PAGE_SIZE, k, k - 1);
      FewerLoadable(m', a / PAGE_SIZE, k, k - 1);
      GatheredKept(m, m', a, n, k - 1);
      assert LoadPage(m', PageAt(a, k - 1)) == LoadPage(m, PageAt(a, k - 1));
    }
  }

  // ---- When an access succeeds, and what is reported otherwise ----

  /** Which protections permit an access: four to execute, four to write, all but two to read. */
  ghost predicate Permits(p: Protection, write: bool, execute: bool) {
    if execute then p.access in {0x10, 0x20, 0x40, 0x80}
    else if write then p.access in {0x04, 0x08, 0x40, 0x80}
    else p.access !in {0x01, 0x10}
  }

  /** Why a page refuses an access, if it does. */
  ghost function Refusal(m: Memory, p: nat, write: bool, execute: bool): Error {
    if p !in m.pages then NotReserved
    else if m.pages[p].backing == None then NotCommitted
    else if !Permits(m.pages[p].protection, write, execute) then AccessDenied
    else Ok
  }

  /** Page `p` holds one of the `n` bytes at `a`. */
  ghost predicate Touched(a: nat, n: nat, p: nat) {
    n > 0 && a / 4096 <= p <= (a + n - 1) / 4096
  }

  /** The first touched page that refuses decides the error. */
  ghost predicate FirstRefusal(m: Memory, a: nat, n: nat, write: bool, execute: bool, e: Error) {
    exists p: nat :: Touched(a, n, p) && Refusal(m, p, write, execute) == e != Ok
                     && forall q: nat :: a / 4096 <= q < p ==> Refusal(m, q, write, execute) == Ok
  }

  ghost predicate Accepted(m: Memory, a: nat, n: nat, write: bool, execute: bool) {
    forall p: nat :: Touched(a, n, p) ==> Refusal(m, p, write, execute) == Ok
  }

  lemma SpanIsTouched(a: nat, n: nat)
    requires n > 0
    ensures Span(a, n) == (a + n - 1) / 4096 - a / 4096 + 1
    ensures forall p: nat :: InRange(p, a / PAGE_SIZE, Span(a, n)) <==> Touched(a, n, p)
  {
  }

  lemma SameRefusal(m: Memory, p: nat, write: bool, execute: bool)
    requires !(write && execute)
    ensures Refusal(m, p, write, execute) == AccessError(m, p, write, execute)
  {
  }

  lemma {:induction false} CheckFindsRefusal(m: Memory, first: nat, count: nat, write: bool, execute: bool)
    requires !(write && execute)
    ensures var e := CheckAccess(m, first, count, write, execute);
            e != Ok ==> exists p: nat :: InRange(p, first, count) && Refusal(m, p, write, execute) == e
                                         && forall q: nat :: first <= q < p ==> Refusal(m, q, write, execute) == Ok
    decreases count
  {
    hide Refusal, AccessError;
    if count > 0 {
      SameRefusal(m, first, write, execute);
      assert InRange(first, first, count);
      CheckFindsRefusal(m, first + 1, count - 1, write, execute);
      if AccessError(m, first, write, execute) == Ok && CheckAccess(m, first, count, write, execute) != Ok {
        var p: nat :| InRange(p, first + 1, count - 1)
                      && Refusal(m, p, write, execute) == CheckAccess(m, first + 1, count - 1, write, execute)
                      && forall q: nat :: first + 1 <= q < p ==> Refusal(m, q, write, execute) == Ok;
        assert InRange(p, first, count);
      }
    }
  }

  /**
   What an access reports.  It succeeds exactly when every page it touches allows it, no guard is armed and storage
   can be had; a refusal is that of the first page that refuses, and comes before any guard.
   */
  lemma AccessSucceeds(
    m: Memory, a: nat, n: nat, kind: AccessKind, consumeGuard: bool, scratch: bool, cells: Option<seq<Fresh>>)
    requires kind.Write? ==> |kind.data| == n
    requires cells.Some? ==> |cells.value| == Span(a, n)
    ensures var e, write, execute :=
              AccessPlan(m, a, n, kind, consumeGuard, scratch, cells).error, kind.Write?, kind.Fetch? || kind.QueryExecute?;
            if a + n > 0xFFFF_FFFF_FFFF_FFFF then e == InvalidArgument
            else if n == 0 then e == Ok
            else if n + a % 4096 + 4095 > 0xFFFF_FFFF_FFFF_FFFF then e == Overflow
            else if !scratch then e == NoMemory
            else if !Accepted(m, a, n, write, execute) then FirstRefusal(m, a, n, write, execute, e)
            else if kind.QueryExecute? then e == Ok
            else if exists p: nat :: Touched(a, n, p) && m.pages[p].protection.guard then e == GuardPage
            else e == if kind.Write? && cells == None then NoMemory else Ok
  {
    hide PromoteEdits, StoreEdits, ReadEdits, Span, CheckAccess, AccessError, Refusal;
    if n > 0 {
      var write, execute := kind.Write?, kind.Fetch? || kind.QueryExecute?;
      SpanIsTouched(a, n);
      CheckFindsRefusal(m, a / PAGE_SIZE, Span(a, n), write, execute);
      forall p: nat ensures Refusal(m, p, write, execute) == AccessError(m, p, write, execute) {
        SameRefusal(m, p, write, execute);
      }
      RefusedUnmapped(m, write, execute);
    }
  }

  lemma RefusedUnmapped(m: Memory, write: bool, execute: bool)
    ensures forall p: nat :: Refusal(m, p, write, execute) == Ok ==> p in m.pages
  {
  }

  /** The aliases of a write-copy page are apart from a write that reaches them only through such pages. */
  lemma WriteCopyAliasIsApart(m: Memory, first: nat, count: nat, q: nat)
    requires Loadable(m, q) && !InRange(q, first, count)
    requires forall p: nat :: InRange(p, first, count) && Shares(m, p, q) ==> Copies(m, p)
    ensures Apart(m, first, count, q)
  {
  }

  // ---- Protections that change without a stamp ----

  /** A caller-owned page that is still write-copy. */
  ghost predicate BorrowedWriteCopy(m: Memory, p: nat) {
    Backed(m, p) && m.pages[p].protection.access in {0x08, 0x80} && m.backings[BackingOf(m, p)].data.External?
  }

  /** The page's protection is another one, and its stamp does not tell. */
  ghost predicate ChangedUnstamped(m: Memory, m': Memory, p: nat) {
    && p in m.pages && p in m'.pages
    && m'.pages[p].protection != m.pages[p].protection && m'.pages[p].generation == m.pages[p].generation
  }

  /** The pages after a read: nothing but the write-copy state of caller-owned pages has gone. */
  ghost predicate ReadPages(m: Memory, s: Memory, first: nat, k: nat) {
    && s.backings == m.backings && s.pages.Keys == m.pages.Keys
    && forall p: nat :: p in m.pages ==>
         s.pages[p] == if InRange(p, first, k) && BorrowedWriteCopy(m, p)
                       then m.pages[p].(protection := Protection(if m.pages[p].protection.access == 0x08 then 0x04 else 0x40, false))
                       else m.pages[p]
  }

  lemma ReadPagesStep(m: Memory, s: Memory, first: nat, cell: Fresh, k: nat)
    requires ReadPages(m, s, first, k)
    ensures ReadPages(m, Run(s, PromoteEdit(m, first + k, false, cell)), first, k + 1)
  {
    hide Run;
    NoEdits(s);
    OneEdit(s, PromoteExternal(first + k));
    StepRange(first, k);
  }

  lemma {:induction false} ReadPagesRun(m: Memory, first: nat, cells: seq<Fresh>, k: nat)
    requires k <= |cells|
    ensures ReadPages(m, Run(m, PromoteEdits(m, first, cells, false, k)), first, k)
    decreases k
  {
    hide Apply, ReadPages, PromoteEdit;
    if k == 0 {
      assert ReadPages(m, m, first, 0) by { ReadPagesNone(m, first); }
    } else {
      ReadPagesRun(m, first, cells, k - 1);
      RunAppend(m, PromoteEdits(m, first, cells, false, k - 1), PromoteEdit(m, first + (k - 1), false, cells[k - 1]));
      ReadPagesStep(m, Run(m, PromoteEdits(m, first, cells, false, k - 1)), first, cells[k - 1], k - 1);
    }
  }

  lemma ReadPagesNone(m: Memory, first: nat)
    ensures ReadPages(m, m, first, 0)
  {
  }

  /** Each of the first `k` pages has been stamped by its store; the others are as they were. */
  ghost predicate StoresStamped(s0: Memory, s: Memory, first: nat, k: nat) {
    && s0.generation <= s.generation && s.pages.Keys == s0.pages.Keys
    && forall p: nat :: p in s0.pages ==>
         if InRange(p, first, k) then s.pages[p].generation > s0.generation else s.pages[p] == s0.pages[p]
  }

  lemma StoreStampStep(s0: Memory, s: Memory, first: nat, offset: nat, chunk: seq<Byte>, k: nat)
    requires StoresStamped(s0, s, first, k) && Loadable(s, first + k) && offset + |chunk| <= PAGE_SIZE
    ensures StoresStamped(s0, Apply(s, Store(first + k, offset, chunk)), first, k + 1)
  {
    hide Overwrite, StoreThrough;
    var bytes := Overwrite(LoadPage(s, first + k), offset, chunk);
    assert Apply(s, Store(first + k, offset, chunk)) == StoreThrough(s, first + k, bytes);
    StoreStamps(s, first + k, bytes);
    StepRange(first, k);
  }

  lemma {:induction false} StoresStamp(s0: Memory, a: nat, data: seq<Byte>, k: nat)
    requires k <= Span(a, |data|) && AllLoadable(s0, a / PAGE_SIZE, Span(a, |data|))
    ensures StoresStamped(s0, Run(s0, StoreEdits(a, data)[..k]), a / PAGE_SIZE, k)
    decreases k
  {
    hide Apply, Offset, Chunk, StoresStamped, Loadable, SameSharing, OthersKept, Written, AgreementIn;
    var edits := StoreEdits(a, data);
    if k == 0 {
      assert edits[..k] == [];
      assert StoresStamped(s0, s0, a / PAGE_SIZE, 0) by { NoneStamped(s0, a / PAGE_SIZE); }
    } else {
      var s := Run(s0, edits[..k - 1]);
      StoresStamp(s0, a, data, k - 1);
      StoresRun(s0, a, data, k - 1);
      RunPrefix(s0, edits, k);
      FewerLoadable(s0, a / PAGE_SIZE, Span(a, |data|), k - 1);
      SharingLoadable(s0, s, PageAt(a, k - 1));
      ChunkLength(a, data, k - 1);
      StoreStampStep(s0, s, a / PAGE_SIZE, Offset(a, k - 1), Chunk(data, a, k - 1), k - 1);
    }
  }

  lemma NoneStamped(s0: Memory, first: nat)
    ensures StoresStamped(s0, s0, first, 0)
  {
  }

  lemma SharingLoadable(s0: Memory, s: Memory, p: nat)
    requires SameSharing(s0, s) && Loadable(s0, p)
    ensures Loadable(s, p)
  {
  }

  lemma ChunkLength(a: nat, data: seq<Byte>, k: nat)
    requires k < Span(a, |data|)
    ensures Offset(a, k) + |Chunk(data, a, k)| <= PAGE_SIZE
  {
    ChunkFits(a, |data|, k);
  }

  /** A write stamps every page of its range and leaves the other page records alone. */
  lemma WriteStamps(m: Memory, a: nat, data: seq<Byte>, cells: seq<Fresh>, p: nat)
    requires Inv(m) && |cells| == Span(a, |data|) && Allocated(m, cells) && p in m.pages
    requires AllLoadable(m, a / PAGE_SIZE, Span(a, |data|))
    ensures var m' := Run(m, PromoteEdits(m, a / PAGE_SIZE, cells, true, |cells|) + StoreEdits(a, data));
            && p in m'.pages
            && if InRange(p, a / PAGE_SIZE, |cells|) then m'.pages[p].generation > m.generation else m'.pages[p] == m.pages[p]
  {
    hide Inv, Run, PromoteEdits, Span, StoreEdits, ContentKept, Loadable;
    var first, count := a / PAGE_SIZE, |cells|;
    var s0 := Run(m, PromoteEdits(m, first, cells, true, count));
    PromoteRun(m, first, cells, true, count);
    PromotedLoadable(m, s0, first, count);
    KeptKeys(m, s0);
    StoresStamp(s0, a, data, count);
    StoreCount(a, data);
    assert StoreEdits(a, data)[..count] == StoreEdits(a, data);
    RunAppend(m, PromoteEdits(m, first, cells, true, count), StoreEdits(a, data));
  }

  lemma KeptKeys(m: Memory, s: Memory)
    requires ContentKept(m, s)
    ensures s.pages.Keys == m.pages.Keys
  {
  }

  lemma StoreCount(a: nat, data: seq<Byte>)
    ensures |StoreEdits(a, data)| == Span(a, |data|)
  {
  }

  /**
   Which accesses change a protection without a stamp: exactly the successful reads and fetches, on the
   caller-owned write-copy pages of their range.
   */
  lemma UnstampedByAccess(
    m: Memory, a: nat, n: nat, kind: AccessKind, consumeGuard: bool, scratch: bool, cells: Option<seq<Fresh>>, p: nat)
    requires Inv(m) && (kind.Write? ==> |kind.data| == n)
    requires cells.Some? ==> |cells.value| == Span(a, n) && Allocated(m, cells.value)
    ensures var plan := AccessPlan(m, a, n, kind, consumeGuard, scratch, cells);
            ChangedUnstamped(m, Run(m, plan.edits), p) <==>
              && plan.error == Ok && (kind.Read? || kind.Fetch?)
              && InRange(p, a / PAGE_SIZE, Span(a, n)) && BorrowedWriteCopy(m, p)
  {
    hide Inv, Run, CheckAccess, PromoteEdits, StoreEdits, Span, Allocated, FirstGuard;
    var plan := AccessPlan(m, a, n, kind, consumeGuard, scratch, cells);
    var first, count := a / PAGE_SIZE, Span(a, n);
    NoEdits(m);
    SpanNone(a);
    InvStamped(m, p);
    FailedAccess(m, a, n, kind, consumeGuard, scratch, cells);
    if plan.error == Ok && n != 0 && kind.Write? && p in m.pages {
      AllowedIsLoadable(m, first, count, true, false);
      WriteStamps(m, a, kind.data, cells.value, p);
    } else if plan.error == Ok && n != 0 && (kind.Read? || kind.Fetch?) {
      ReadPagesRun(m, first, seq(count, _ => Fresh(0, 0)), count);
    }
  }

  lemma InvStamped(m: Memory, p: nat)
    requires Inv(m)
    ensures p in m.pages ==> m.pages[p].generation <= m.generation
  {
  }

  /** It does happen: one byte read from a caller-owned write-copy page, of a memory that holds nothing else. */
  lemma ReadChangesUnstamped() returns (m: Memory)
    ensures Inv(m)
    ensures var plan := AccessPlan(m, 0, 1, Read, true, true, None);
            plan.error == Ok && ChangedUnstamped(m, Run(m, plan.edits), 0)
  {
    var page := Page(0, 1, Some(1), Protection(WRITE_COPY, false), 1);
    m := Memory(map[0 := page], map[1 := Backing(External(0), 1, 1)], map[0 := ZeroPage()], 1, map[]);
    forall b: BackingId ensures Refs(m, b) == |Holders(m, b)| && (b in m.backings <==> Refs(m, b) > 0) {
      assert Holders(m, b) == if b == 1 then {PageRef(0)} else {};
    }
    assert Span(0, 1) == 1;
    assert forall p: nat :: InRange(p, 0, 1) ==> p == 0;
    UnstampedByAccess(m, 0, 1, Read, true, true, None, 0);
  }
}

/**
 What the mapping calls do, stated without their edits, and what they keep: reservations stay a
 partition of the mapped pages into fully mapped intervals.
 */
module MappingEffects {
  import opened Options
  import opened GuestMemory
  import opened MemoryInvariants
  import opened MappingCalls

  lemma RunSnoc(m: Memory, edits: seq<Edit>, e: Edit)
    ensures Run(m, edits + [e]) == Apply(Run(m, edits), e)
  {
    RunAppend(m, edits, [e]);
    var last := Run(m, edits);
    assert Run(last, [e]) == Run(Apply(last, e), []);
  }

  /** Everything but the page map, the backings and the counter is as before. */
  ghost predicate SameElsewhere(m: Memory, m': Memory) {
    m'.host == m.host && m'.transactions == m.transactions
  }

  /** A run of the first `k` edits is one edit more than a run of the first `k - 1`. */
  lemma RunPrefix(m: Memory, edits: seq<Edit>, k: nat)
    requires 0 < k <= |edits|
    ensures Run(m, edits[..k]) == Apply(Run(m, edits[..k - 1]), edits[k - 1])
  {
    assert edits[..k] == edits[..k - 1] + [edits[k - 1]];
    RunSnoc(m, edits[..k - 1], edits[k - 1]);
  }

  // ---- What a caller can see before a call ----

  /** One page or more, whole pages, ending before addresses do. */
  ghost predicate WholePages(a: nat, n: nat) {
    n > 0 && a % 4096 == 0 && n % 4096 == 0 && a + n <= 0xFFFF_FFFF_FFFF_FFFF
  }

  /** One of the eight protections, and a guard only where there is something to guard. */
  ghost predicate KnownProtection(p: Protection) {
    p.access in {0x01, 0x02, 0x04, 0x08, 0x10, 0x20, 0x40, 0x80} && !(p.guard && p.access == 0x01)
  }

  ghost predicate Unmapped(m: Memory, first: nat, count: nat) {
    forall p: nat :: first <= p < first + count ==> p !in m.pages
  }

  /** What a page lacks: a mapping, or storage where that is asked for. */
  ghost function Lack(m: Memory, p: nat, committed: bool): Error {
    if p !in m.pages then NotReserved
    else if committed && m.pages[p].backing == None then NotCommitted
    else Ok
  }

  /** What the first page of the range that lacks something lacks. */
  ghost predicate FirstLack(m: Memory, first: nat, count: nat, committed: bool, e: Error) {
    if forall p: nat :: first <= p < first + count ==> Lack(m, p, committed) == Ok then e == Ok
    else exists p: nat :: first <= p < first + count && Lack(m, p, committed) == e != Ok
                          && forall q: nat :: first <= q < p ==> Lack(m, q, committed) == Ok
  }

  lemma {:induction false} CheckFinds(m: Memory, first: nat, count: nat, committed: bool)
    ensures FirstLack(m, first, count, committed, CheckPages(m, first, count, committed))
    decreases count
  {
    hide Lack, FirstLack;
    if count == 0 {
      NoneLacks(m, first, committed);
    } else {
      CheckUnfolds(m, first, count, committed);
      CheckFinds(m, first + 1, count - 1, committed);
      LackGrows(m, first, count, committed, CheckPages(m, first + 1, count - 1, committed));
    }
  }

  lemma CheckUnfolds(m: Memory, first: nat, count: nat, committed: bool)
    requires count > 0
    ensures CheckPages(m, first, count, committed)
         == if Lack(m, first, committed) != Ok then Lack(m, first, committed) else CheckPages(m, first + 1, count - 1, committed)
  {
  }

  lemma NoneLacks(m: Memory, first: nat, committed: bool)
    ensures FirstLack(m, first, 0, committed, Ok)
  {
  }

  /** The first page to lack something is the first of the range, or the first of the rest. */
  lemma LackGrows(m: Memory, first: nat, count: nat, committed: bool, e: Error)
    requires count > 0 && FirstLack(m, first + 1, count - 1, committed, e)
    ensures FirstLack(m, first, count, committed, if Lack(m, first, committed) != Ok then Lack(m, first, committed) else e)
  {
    hide Lack;
    if Lack(m, first, committed) == Ok {
      if p: nat :| first + 1 <= p < first + count && Lack(m, p, committed) != Ok {
        var k: nat :| first + 1 <= k < first + count && Lack(m, k, committed) == e != Ok
                      && forall q: nat :: first + 1 <= q < k ==> Lack(m, q, committed) == Ok;
        forall q: nat | first <= q < k ensures Lack(m, q, committed) == Ok {
        }
        assert first <= k < first + count && Lack(m, k, committed) == e;
      } else {
        forall q: nat | first <= q < first + count ensures Lack(m, q, committed) == Ok {
        }
      }
    }
  }

  // ---- Reserve ----

  ghost predicate ReserveEffect(m: Memory, m': Memory, first: nat, size: nat, count: nat) {
    && SameElsewhere(m, m') && m'.backings == m.backings && m'.generation == m.generation + count
    && (forall p: nat :: p in m'.pages <==> p in m.pages || InRange(p, first, count))
    && (forall p: nat :: p in m.pages ==> m'.pages[p] == m.pages[p])
    && (forall p: nat :: InRange(p, first, count) ==>
          m'.pages[p] == Page(first, size, None, Protection(0, false), m.generation + (p - first) + 1))
  }

  lemma ReserveStep(m: Memory, s: Memory, first: nat, size: nat, k: nat)
    requires ReserveEffect(m, s, first, size, k) && first + k !in m.pages
    ensures ReserveEffect(m, Apply(s, Reserve(first + k, first, size)), first, size, k + 1)
    requires forall p: nat :: InRange(p, first, k) ==> p !in m.pages
  {
    assert first + k !in s.pages;
    assert Apply(s, Reserve(first + k, first, size)) == ReservePage(s, first + k, first, size);
  }

  lemma ReserveNone(m: Memory, first: nat, size: nat)
    ensures ReserveEffect(m, m, first, size, 0)
  {
  }

  lemma {:induction false} ReserveRun(m: Memory, first: nat, count: nat, k: nat)
    requires k <= count && forall p: nat :: InRange(p, first, count) ==> p !in m.pages
    ensures ReserveEffect(m, Run(m, ReserveEdits(first, count)[..k]), first, count, k)
    decreases k
  {
    hide Apply, ReserveEffect;
    var edits := ReserveEdits(first, count);
    if k == 0 {
      assert edits[..k] == [];
      ReserveNone(m, first, count);
    } else {
      ReserveRun(m, first, count, k - 1);
      RunPrefix(m, edits, k);
      assert InRange(first + k - 1, first, count);
      ReserveStep(m, Run(m, edits[..k - 1]), first, count, k - 1);
    }
  }

  lemma ReserveAll(m: Memory, first: nat, count: nat)
    requires forall p: nat :: InRange(p, first, count) ==> p !in m.pages
    ensures ReserveEffect(m, Run(m, ReserveEdits(first, count)), first, count, count)
  {
    ReserveRun(m, first, count, count);
    assert ReserveEdits(first, count)[..count] == ReserveEdits(first, count);
  }

  // ---- Alias ----

  /** The page of a source range that corresponds to page `p` of a range starting at `first`. */
  function Counterpart(p: nat, first: nat, source: nat): nat
    requires first <= p
  {
    source + (p - first)
  }

  ghost predicate AliasEffect(
    m: Memory, m': Memory, first: nat, source: nat, size: nat, protection: Protection, count: nat)
  {
    && SameElsewhere(m, m') && m'.generation == m.generation + count
    && (forall p: nat :: p in m'.pages <==> p in m.pages || InRange(p, first, count))
    && (forall p: nat :: p in m.pages ==> m'.pages[p] == m.pages[p])
    && (forall p: nat :: InRange(p, first, count) ==> Counterpart(p, first, source) in m.pages)
    && (forall p: nat :: InRange(p, first, count) ==>
          m'.pages[p] == Page(first, size, m.pages[Counterpart(p, first, source)].backing, protection,
                              m.generation + (p - first) + 1))
    && m'.backings.Keys == m.backings.Keys
    && (forall b :: b in m.backings ==>
          m'.backings[b].data == m.backings[b].data && m'.backings[b].generation == m.backings[b].generation)
  }

  lemma StepRange(first: nat, k: nat)
    ensures forall q: nat :: InRange(q, first, k + 1) <==> InRange(q, first, k) || q == first + k
  {
  }

  lemma AliasOne(m: Memory, s: Memory, first: nat, source: nat, size: nat, protection: Protection, k: nat)
    requires AliasEffect(m, s, first, source, size, protection, k) && first + k !in m.pages
    requires forall p: nat :: InRange(p, first, k) ==> p !in m.pages
    requires Backed(m, source + k)
    ensures first + k !in s.pages && source + k in s.pages && s.pages[source + k] == m.pages[source + k]
    ensures BackingOf(m, source + k) in s.backings
  {
  }

  lemma AliasStep(m: Memory, s: Memory, first: nat, source: nat, size: nat, protection: Protection, k: nat)
    requires AliasEffect(m, s, first, source, size, protection, k) && first + k !in m.pages
    requires forall p: nat :: InRange(p, first, k) ==> p !in m.pages
    requires Backed(m, source + k)
    ensures Enabled(s, Alias(first + k, first, size, source + k, protection))
    ensures AliasEffect(m, Apply(s, Alias(first + k, first, size, source + k, protection)),
                        first, source, size, protection, k + 1)
  {
    hide AliasEffect;
    AliasOne(m, s, first, source, size, protection, k);
    assert Apply(s, Alias(first + k, first, size, source + k, protection))
        == AliasPage(s, first + k, first, size, BackingOf(m, source + k), protection);
    AliasMore(m, s, first, source, size, protection, k);
  }

  lemma AliasMore(m: Memory, s: Memory, first: nat, source: nat, size: nat, protection: Protection, k: nat)
    requires AliasEffect(m, s, first, source, size, protection, k) && first + k !in m.pages
    requires Backed(m, source + k) && BackingOf(m, source + k) in s.backings
    ensures AliasEffect(m, AliasPage(s, first + k, first, size, BackingOf(m, source + k), protection),
                        first, source, size, protection, k + 1)
  {
    assert Counterpart(first + k, first, source) == source + k;
    StepRange(first, k);
  }

  ghost predicate AllBacked(m: Memory, first: nat, count: nat) {
    forall p: nat :: InRange(p, first, count) ==> Backed(m, p)
  }

  lemma AliasNone(m: Memory, first: nat, source: nat, size: nat, protection: Protection)
    ensures AliasEffect(m, m, first, source, size, protection, 0)
  {
  }

  lemma {:induction false} AliasRun(
    m: Memory, first: nat, source: nat, count: nat, protection: Protection, k: nat)
    requires k <= count && forall p: nat :: InRange(p, first, count) ==> p !in m.pages
    requires AllBacked(m, source, count)
    ensures AliasEffect(m, Run(m, AliasEdits(first, source, count, protection)[..k]),
                        first, source, count, protection, k)
    decreases k
  {
    hide Apply, AliasEffect;
    var edits := AliasEdits(first, source, count, protection);
    if k == 0 {
      assert edits[..k] == [];
      AliasNone(m, first, source, count, protection);
    } else {
      AliasRun(m, first, source, count, protection, k - 1);
      RunPrefix(m, edits, k);
      assert InRange(first + k - 1, first, count) && InRange(source + k - 1, source, count);
      AliasStep(m, Run(m, edits[..k - 1]), first, source, count, protection, k - 1);
    }
  }

  lemma AliasAll(m: Memory, first: nat, source: nat, count: nat, protection: Protection)
    requires forall p: nat :: InRange(p, first, count) ==> p !in m.pages
    requires AllBacked(m, source, count)
    ensures AliasEffect(m, Run(m, AliasEdits(first, source, count, protection)), first, source, count, protection, count)
  {
    AliasRun(m, first, source, count, protection, count);
    assert AliasEdits(first, source, count, protection)[..count] == AliasEdits(first, source, count, protection);
  }

  // ---- Commit ----

  /** A committed page keeps the backing it had, or gets the one allocated for it. */
  ghost predicate CommitPages(
    m: Memory, m': Memory, first: nat, cells: seq<Fresh>, protection: Protection, count: nat)
  {
    && count <= |cells|
    && m'.pages.Keys == m.pages.Keys
    && (forall p: nat :: p in m.pages && !InRange(p, first, count) ==> m'.pages[p] == m.pages[p])
    && (forall p: nat :: InRange(p, first, count) ==>
          && p in m.pages
          && m'.pages[p] == m.pages[p].(
               backing := if m.pages[p].backing.Some? then m.pages[p].backing else Some(cells[p - first].id),
               protection := protection, generation := m.generation + (p - first) + 1))
  }

  ghost predicate CommitBackings(
    m: Memory, m': Memory, first: nat, cells: seq<Fresh>, host: Option<nat>, count: nat)
  {
    && count <= |cells|
    && (forall b :: b in m.backings ==> b in m'.backings && m'.backings[b] == m.backings[b])
    && (forall p: nat :: InRange(p, first, count) && p in m.pages && m.pages[p].backing.None? ==>
          cells[p - first].id in m'.backings
          && m'.backings[cells[p - first].id] == Backing(DataAt(host, p - first), 1, cells[p - first].generation))
    && (forall k :: count <= k < |cells| ==> cells[k].id !in m'.backings)
  }

  ghost predicate CommitEffect(
    m: Memory, m': Memory, first: nat, cells: seq<Fresh>, host: Option<nat>, protection: Protection, count: nat)
  {
    && SameElsewhere(m, m') && m'.generation == m.generation + count
    && CommitPages(m, m', first, cells, protection, count)
    && CommitBackings(m, m', first, cells, host, count)
  }

  ghost predicate HostReady(m: Memory, host: Option<nat>, count: nat) {
    host.Some? ==> forall h: nat :: InRange(h, host.value, count) ==> h in m.host
  }

  ghost predicate AllMapped(m: Memory, first: nat, count: nat) {
    forall p: nat :: InRange(p, first, count) ==> p in m.pages
  }

  lemma CommitPageResult(s: Memory, p: nat, cell: Fresh, data: Data, protection: Protection)
    requires Enabled(s, Commit(p, cell, data, protection))
    ensures var home := if s.pages[p].backing.Some? then s.pages[p].backing else Some(cell.id);
            Apply(s, Commit(p, cell, data, protection)) == s.(
              pages := s.pages[p := s.pages[p].(backing := home, protection := protection, generation := s.generation + 1)],
              backings := if s.pages[p].backing.Some? then s.backings
                          else s.backings[cell.id := Backing(data, 1, cell.generation)],
              generation := s.generation + 1)
  {
  }

  lemma CommitPagesStep(m: Memory, s: Memory, s': Memory, first: nat, cells: seq<Fresh>, protection: Protection, k: nat)
    requires CommitPages(m, s, first, cells, protection, k) && k < |cells| && first + k in m.pages
    requires s'.pages == s.pages[first + k := m.pages[first + k].(
      backing := if m.pages[first + k].backing.Some? then m.pages[first + k].backing else Some(cells[k].id),
      protection := protection, generation := m.generation + k + 1)]
    ensures CommitPages(m, s', first, cells, protection, k + 1)
  {
    StepRange(first, k);
  }

  lemma CommitBackingsStep(
    m: Memory, s: Memory, s': Memory, first: nat, cells: seq<Fresh>, host: Option<nat>, k: nat)
    requires CommitBackings(m, s, first, cells, host, k) && k < |cells| && first + k in m.pages
    requires Allocated(m, cells)
    requires s'.backings == if m.pages[first + k].backing.Some? then s.backings
                            else s.backings[cells[k].id := Backing(DataAt(host, k), 1, cells[k].generation)]
    ensures CommitBackings(m, s', first, cells, host, k + 1)
  {
    hide DataAt;
    StepRange(first, k);
  }

  lemma CommitStep(m: Memory, s: Memory, first: nat, cells: seq<Fresh>, host: Option<nat>, protection: Protection, k: nat)
    requires Allocated(m, cells) && k < |cells| && first + k in m.pages
    requires DataAt(host, k).External? ==> DataAt(host, k).host in m.host
    requires CommitEffect(m, s, first, cells, host, protection, k)
    ensures Enabled(s, Commit(first + k, cells[k], DataAt(host, k), protection))
    ensures CommitEffect(m, Apply(s, Commit(first + k, cells[k], DataAt(host, k), protection)),
                         first, cells, host, protection, k + 1)
  {
    hide Apply, DataAt;
    var p := first + k;
    assert s.pages[p] == m.pages[p];
    CommitPageResult(s, p, cells[k], DataAt(host, k), protection);
    var s' := Apply(s, Commit(p, cells[k], DataAt(host, k), protection));
    CommitPagesStep(m, s, s', first, cells, protection, k);
    CommitBackingsStep(m, s, s', first, cells, host, k);
  }

  lemma CommitNone(m: Memory, first: nat, cells: seq<Fresh>, host: Option<nat>, protection: Protection)
    requires Allocated(m, cells)
    ensures CommitEffect(m, m, first, cells, host, protection, 0)
  {
  }

  lemma {:induction false} CommitRun(
    m: Memory, first: nat, cells: seq<Fresh>, host: Option<nat>, protection: Protection, k: nat)
    requires Allocated(m, cells) && HostReady(m, host, |cells|) && k <= |cells|
    requires AllMapped(m, first, |cells|)
    ensures CommitEffect(m, Run(m, CommitEdits(first, cells, host, protection)[..k]), first, cells, host, protection, k)
    decreases k
  {
    hide Apply, CommitEffect;
    var edits := CommitEdits(first, cells, host, protection);
    if k == 0 {
      assert edits[..k] == [];
      CommitNone(m, first, cells, host, protection);
    } else {
      CommitRun(m, first, cells, host, protection, k - 1);
      RunPrefix(m, edits, k);
      assert InRange(first + k - 1, first, |cells|);
      assert host.Some? ==> InRange(host.value + k - 1, host.value, |cells|);
      CommitStep(m, Run(m, edits[..k - 1]), first, cells, host, protection, k - 1);
    }
  }

  lemma CommitAll(m: Memory, first: nat, cells: seq<Fresh>, host: Option<nat>, protection: Protection)
    requires Allocated(m, cells) && HostReady(m, host, |cells|) && AllMapped(m, first, |cells|)
    ensures CommitEffect(m, Run(m, CommitEdits(first, cells, host, protection)), first, cells, host, protection, |cells|)
  {
    CommitRun(m, first, cells, host, protection, |cells|);
    assert CommitEdits(first, cells, host, protection)[..|cells|] == CommitEdits(first, cells, host, protection);
  }

  // ---- Protect and Rebase ----

  ghost predicate ProtectEffect(m: Memory, m': Memory, first: nat, count: nat, protection: Protection) {
    && SameElsewhere(m, m') && m'.backings == m.backings && m'.generation == m.generation + count
    && m'.pages.Keys == m.pages.Keys
    && (forall p: nat :: p in m.pages ==>
          m'.pages[p] == if InRange(p, first, count)
                         then m.pages[p].(protection := protection, generation := m.generation + (p - first) + 1)
                         else m.pages[p])
  }

  lemma ProtectStep(m: Memory, s: Memory, first: nat, protection: Protection, k: nat)
    requires ProtectEffect(m, s, first, k, protection) && first + k in m.pages
    ensures ProtectEffect(m, Apply(s, Protect(first + k, protection)), first, k + 1, protection)
  {
    assert Apply(s, Protect(first + k, protection)) == TouchPage(WithProtection(s, first + k, protection), first + k);
  }

  lemma ProtectNone(m: Memory, first: nat, protection: Protection)
    ensures ProtectEffect(m, m, first, 0, protection)
  {
  }

  lemma {:induction false} ProtectRun(m: Memory, first: nat, count: nat, protection: Protection, k: nat)
    requires k <= count && AllMapped(m, first, count)
    ensures ProtectEffect(m, Run(m, ProtectEdits(first, count, protection)[..k]), first, k, protection)
    decreases k
  {
    hide Apply, ProtectEffect;
    var edits := ProtectEdits(first, count, protection);
    if k == 0 {
      assert edits[..k] == [];
      ProtectNone(m, first, protection);
    } else {
      ProtectRun(m, first, count, protection, k - 1);
      RunPrefix(m, edits, k);
      assert InRange(first + k - 1, first, count);
      ProtectStep(m, Run(m, edits[..k - 1]), first, protection, k - 1);
    }
  }

  lemma ProtectAll(m: Memory, first: nat, count: nat, protection: Protection)
    requires AllMapped(m, first, count)
    ensures ProtectEffect(m, Run(m, ProtectEdits(first, count, protection)), first, count, protection)
  {
    ProtectRun(m, first, count, protection, count);
    assert ProtectEdits(first, count, protection)[..count] == ProtectEdits(first, count, protection);
  }

  ghost predicate RebaseEffect(m: Memory, m': Memory, from: nat, to: nat, count: nat) {
    && from <= to && m' == m.(pages := m'.pages) && m'.pages.Keys == m.pages.Keys
    && (forall p: nat :: p in m.pages ==>
          m'.pages[p] == if InRange(p, from, count) then m.pages[p].(base := from, size := to - from) else m.pages[p])
  }

  lemma {:induction false} RebaseRun(m: Memory, from: nat, to: nat, k: nat)
    requires from <= to && k <= to - from && AllMapped(m, from, to - from)
    ensures RebaseEffect(m, Run(m, RebaseEdits(from, to)[..k]), from, to, k)
    decreases k
  {
    var edits := RebaseEdits(from, to);
    if k == 0 {
      assert edits[..k] == [];
    } else {
      RebaseRun(m, from, to, k - 1);
      RunPrefix(m, edits, k);
      assert InRange(from + k - 1, from, to - from);
      var s := Run(m, edits[..k - 1]);
      assert Apply(s, edits[k - 1])
          == s.(pages := s.pages[from + k - 1 := s.pages[from + k - 1].(base := from, size := to - from)]);
    }
  }

  lemma RebaseAll(m: Memory, from: nat, to: nat)
    requires from <= to && AllMapped(m, from, to - from)
    ensures RebaseEffect(m, Run(m, RebaseEdits(from, to)), from, to, to - from)
  {
    RebaseRun(m, from, to, to - from);
    assert RebaseEdits(from, to)[..to - from] == RebaseEdits(from, to);
  }

  // ---- Decommit and removal ----

  ghost function HeldBy(m: Memory, pages: set<nat>, b: BackingId): set<nat> {
    set p | p in pages && p in m.pages && m.pages[p].backing == Some(b)
  }

  /** How many pages of a set have this backing. */
  ghost function HeldIn(m: Memory, pages: set<nat>, b: BackingId): nat {
    |HeldBy(m, pages, b)|
  }

  /** Each backing loses the references of these pages, and is freed when none is left. */
  ghost predicate Dropped(m: Memory, m': Memory, pages: set<nat>) {
    && (forall b :: b in m'.backings <==> b in m.backings && m.backings[b].refs > HeldIn(m, pages, b))
    && (forall b :: b in m'.backings ==>
          && b in m.backings
          && m'.backings[b] == m.backings[b].(refs := m'.backings[b].refs)
          && m'.backings[b].refs == m.backings[b].refs - HeldIn(m, pages, b))
  }

  lemma HeldInGrows(m: Memory, pages: set<nat>, p: nat, b: BackingId)
    requires p !in pages && p in m.pages
    ensures HeldIn(m, pages + {p}, b) == HeldIn(m, pages, b) + One(m.pages[p].backing, b)
  {
    if m.pages[p].backing == Some(b) {
      assert HeldBy(m, pages + {p}, b) == HeldBy(m, pages, b) + {p};
    } else {
      assert HeldBy(m, pages + {p}, b) == HeldBy(m, pages, b);
    }
  }

  ghost function PageRefs(pages: set<nat>): set<Holder> {
    set p | p in pages :: PageRef(p)
  }

  lemma HeldInBounded(m: Memory, pages: set<nat>, b: BackingId)
    requires Counted(m)
    ensures HeldIn(m, pages, b) <= Refs(m, b)
  {
    var held := HeldBy(m, pages, b);
    assert PageRefs(held) <= Holders(m, b);
    PageRefsSize(held);
    SubsetSize(PageRefs(held), Holders(m, b));
    assert Refs(m, b) == |Holders(m, b)|;
  }

  lemma {:induction false} PageRefsSize(pages: set<nat>)
    ensures |PageRefs(pages)| == |pages|
    decreases pages
  {
    if pages != {} {
      var p :| p in pages;
      PageRefsSize(pages - {p});
      assert PageRefs(pages) == PageRefs(pages - {p}) + {PageRef(p)};
    }
  }

  lemma {:induction false} SubsetSize<T>(a: set<T>, b: set<T>)
    requires a <= b
    ensures |a| <= |b|
    decreases a
  {
    if a != {} {
      var x :| x in a;
      SubsetSize(a - {x}, b - {x});
    }
  }

  lemma DropStep(m: Memory, s: Memory, s': Memory, pages: set<nat>, p: nat)
    requires Counted(m) && Dropped(m, s, pages) && p !in pages && p in m.pages
    requires s'.backings == DropOption(s.backings, m.pages[p].backing)
    ensures Dropped(m, s', pages + {p})
  {
    hide Counted, HeldIn;
    forall b ensures HeldIn(m, pages + {p}, b) == HeldIn(m, pages, b) + One(m.pages[p].backing, b)
                  && HeldIn(m, pages + {p}, b) <= Refs(m, b)
    {
      HeldInGrows(m, pages, p, b);
      HeldInBounded(m, pages + {p}, b);
    }
    CountedLive(m, PageRef(p));
  }

  ghost predicate RemoveEffect(m: Memory, m': Memory, pages: set<nat>) {
    && SameElsewhere(m, m') && m'.generation == m.generation
    && m'.pages == m.pages - pages
    && Dropped(m, m', pages)
  }

  function SetOf(pages: seq<nat>): set<nat> {
    set p | p in pages
  }

  ghost predicate DistinctMapped(m: Memory, pages: seq<nat>) {
    && (forall i :: 0 <= i < |pages| ==> pages[i] in m.pages)
    && (forall i, j :: 0 <= i < j < |pages| ==> pages[i] != pages[j])
  }

  lemma RemoveNone(m: Memory)
    requires Counted(m)
    ensures RemoveEffect(m, m, {})
  {
    assert forall b :: HeldBy(m, {}, b) == {};
    CountedLive(m, PageRef(0));
    assert m.pages - {} == m.pages;
    hide Counted;
  }

  lemma RemoveStep(m: Memory, s: Memory, gone: set<nat>, p: nat)
    requires Counted(m) && RemoveEffect(m, s, gone) && p !in gone && p in m.pages
    ensures RemoveEffect(m, Apply(s, Remove(p)), gone + {p})
  {
    assert Apply(s, Remove(p)) == RemovePage(s, p);
    DropStep(m, s, RemovePage(s, p), gone, p);
    assert m.pages - (gone + {p}) == m.pages - gone - {p};
  }

  lemma {:induction false} RemoveRun(m: Memory, pages: seq<nat>, k: nat)
    requires Counted(m) && k <= |pages| && DistinctMapped(m, pages)
    ensures RemoveEffect(m, Run(m, RemoveEdits(pages)[..k]), SetOf(pages[..k]))
    decreases k
  {
    var edits := RemoveEdits(pages);
    hide Counted, RemoveEffect, Apply;
    if k == 0 {
      assert edits[..k] == [];
      assert SetOf(pages[..k]) == {};
      RemoveNone(m);
    } else {
      RemoveRun(m, pages, k - 1);
      RunPrefix(m, edits, k);
      assert pages[..k] == pages[..k - 1] + [pages[k - 1]];
      assert SetOf(pages[..k]) == SetOf(pages[..k - 1]) + {pages[k - 1]};
      RemoveStep(m, Run(m, edits[..k - 1]), SetOf(pages[..k - 1]), pages[k - 1]);
    }
  }

  lemma RemoveAll(m: Memory, pages: seq<nat>)
    requires Counted(m) && DistinctMapped(m, pages)
    ensures RemoveEffect(m, Run(m, RemoveEdits(pages)), SetOf(pages))
  {
    RemoveRun(m, pages, |pages|);
    assert RemoveEdits(pages)[..|pages|] == RemoveEdits(pages) && pages[..|pages|] == pages;
  }

  lemma RemoveDetermined(m: Memory, a: Memory, b: Memory, pages: set<nat>)
    requires RemoveEffect(m, a, pages) && RemoveEffect(m, b, pages)
    ensures a == b
  {
    assert a.backings.Keys == b.backings.Keys;
  }

  /** The page list and the address range visit pages in different orders; the outcome is the same. */
  lemma RemovalOrderIrrelevant(m: Memory, pages: seq<nat>, others: seq<nat>)
    requires Counted(m) && DistinctMapped(m, pages) && DistinctMapped(m, others)
    requires SetOf(pages) == SetOf(others)
    ensures Run(m, RemoveEdits(pages)) == Run(m, RemoveEdits(others))
  {
    hide Counted, RemoveEffect, DistinctMapped;
    RemoveAll(m, pages);
    RemoveAll(m, others);
    RemoveDetermined(m, Run(m, RemoveEdits(pages)), Run(m, RemoveEdits(others)), SetOf(pages));
  }

  ghost predicate DecommitPages(m: Memory, m': Memory, first: nat, count: nat) {
    && m'.pages.Keys == m.pages.Keys
    && (forall p: nat :: p in m.pages ==>
          m'.pages[p] == if InRange(p, first, count)
                         then m.pages[p].(backing := None, protection := Protection(NO_ACCESS, false),
                                          generation := m.generation + (p - first) + 1)
                         else m.pages[p])
  }

  ghost predicate DecommitEffect(m: Memory, m': Memory, first: nat, count: nat) {
    && SameElsewhere(m, m') && m'.generation == m.generation + count
    && DecommitPages(m, m', first, count)
    && Dropped(m, m', SetOf(Ascending(first, count)))
  }

  lemma AscendingGrows(first: nat, k: nat)
    ensures SetOf(Ascending(first, k + 1)) == SetOf(Ascending(first, k)) + {first + k}
    ensures forall p: nat :: p in SetOf(Ascending(first, k)) <==> InRange(p, first, k)
  {
    forall p: nat ensures p in SetOf(Ascending(first, k)) <==> InRange(p, first, k) {
      if InRange(p, first, k) {
        assert Ascending(first, k)[p - first] == p;
      }
    }
    assert Ascending(first, k + 1) == Ascending(first, k) + [first + k];
  }

  lemma DecommitNone(m: Memory, first: nat)
    requires Counted(m)
    ensures DecommitEffect(m, m, first, 0)
  {
    assert SetOf(Ascending(first, 0)) == {};
    RemoveNone(m);
    hide Counted, Dropped;
  }

  lemma DecommitStep(m: Memory, s: Memory, first: nat, k: nat)
    requires Counted(m) && DecommitEffect(m, s, first, k) && first + k in m.pages
    ensures DecommitEffect(m, Apply(s, Decommit(first + k)), first, k + 1)
  {
    hide Counted, Dropped, SetOf;
    var p := first + k;
    assert Apply(s, Decommit(p)) == DecommitPage(s, p);
    AscendingGrows(first, k);
    assert s.pages[p] == m.pages[p];
    DropStep(m, s, DecommitPage(s, p), SetOf(Ascending(first, k)), p);
    assert forall q: nat :: InRange(q, first, k + 1) <==> InRange(q, first, k) || q == p;
  }

  lemma {:induction false} DecommitRun(m: Memory, first: nat, count: nat, k: nat)
    requires Counted(m) && AllMapped(m, first, count) && k <= count
    ensures DecommitEffect(m, Run(m, DecommitEdits(first, count)[..k]), first, k)
    decreases k
  {
    hide Apply, Counted, DecommitEffect;
    var edits := DecommitEdits(first, count);
    if k == 0 {
      assert edits[..k] == [];
      DecommitNone(m, first);
    } else {
      DecommitRun(m, first, count, k - 1);
      RunPrefix(m, edits, k);
      assert InRange(first + k - 1, first, count);
      DecommitStep(m, Run(m, edits[..k - 1]), first, k - 1);
    }
  }

  lemma DecommitAll(m: Memory, first: nat, count: nat)
    requires Counted(m) && AllMapped(m, first, count)
    ensures DecommitEffect(m, Run(m, DecommitEdits(first, count)), first, count)
  {
    DecommitRun(m, first, count, count);
    assert DecommitEdits(first, count)[..count] == DecommitEdits(first, count);
  }

  lemma RemoveRange(m: Memory, first: nat, count: nat)
    requires Counted(m) && AllMapped(m, first, count)
    ensures RemoveEffect(m, Run(m, RemoveEdits(Ascending(first, count))), SetOf(Ascending(first, count)))
  {
    forall i | 0 <= i < count ensures Ascending(first, count)[i] in m.pages {
      assert InRange(first + i, first, count);
    }
    RemoveAll(m, Ascending(first, count));
  }

  // ---- Reservations ----

  /** A page in the reservation of a mapped page is mapped, and in the same reservation. */
  ghost predicate Together(m: Memory, p: nat, q: nat) {
    p in m.pages && InRange(q, m.pages[p].base, m.pages[p].size) ==>
      q in m.pages && m.pages[q].base == m.pages[p].base && m.pages[q].size == m.pages[p].size
  }

  /** Every mapped page lies in its reservation, and all of that reservation is mapped and says the same. */
  ghost predicate Partitioned(m: Memory) {
    && (forall p: nat :: p in m.pages ==> InRange(p, m.pages[p].base, m.pages[p].size))
    && (forall p: nat, q: nat :: Together(m, p, q))
  }

  /** All of a mapped page's reservation is mapped, page by page the same reservation. */
  lemma ReservationWhole(m: Memory, p: nat)
    requires Partitioned(m) && p in m.pages
    ensures AllMapped(m, m.pages[p].base, m.pages[p].size)
    ensures forall q: nat :: InRange(q, m.pages[p].base, m.pages[p].size) ==>
              q in m.pages && m.pages[q].base == m.pages[p].base && m.pages[q].size == m.pages[p].size
  {
    forall q: nat | InRange(q, m.pages[p].base, m.pages[p].size)
      ensures q in m.pages && m.pages[q].base == m.pages[p].base && m.pages[q].size == m.pages[p].size
    {
      assert Together(m, p, q);
    }
  }

  ghost predicate SameIntervals(m: Memory, m': Memory) {
    && m'.pages.Keys == m.pages.Keys
    && (forall p: nat :: p in m.pages ==>
          m'.pages[p].base == m.pages[p].base && m'.pages[p].size == m.pages[p].size)
  }

  lemma SameIntervalsKeepPartition(m: Memory, m': Memory)
    requires Partitioned(m) && SameIntervals(m, m')
    ensures Partitioned(m')
  {
    forall p: nat, q: nat ensures Together(m', p, q) {
      assert Together(m, p, q);
    }
  }

  /** A new reservation on unmapped pages: `reserve`, `alias` and the mapping functions built on them. */
  lemma NewIntervalKeepsPartition(m: Memory, m': Memory, first: nat, count: nat)
    requires Partitioned(m)
    requires forall p: nat :: InRange(p, first, count) ==> p !in m.pages
    requires forall p: nat :: p in m'.pages <==> p in m.pages || InRange(p, first, count)
    requires forall p: nat :: p in m.pages ==> m'.pages[p] == m.pages[p]
    requires forall p: nat :: InRange(p, first, count) ==> m'.pages[p].base == first && m'.pages[p].size == count
    ensures Partitioned(m')
  {
    forall p: nat, q: nat ensures Together(m', p, q) {
      assert Together(m, p, q);
    }
  }

  /** What is left of a reservation after its middle is unmapped: a left part and a right part. */
  ghost predicate Split(m: Memory, m': Memory, base: nat, size: nat, first: nat, count: nat) {
    && base <= first && first + count <= base + size
    && (forall p: nat :: p in m'.pages <==> p in m.pages && !InRange(p, first, count))
    && (forall p: nat :: p in m'.pages ==>
          m'.pages[p] == if InRange(p, base, first - base) then m.pages[p].(base := base, size := first - base)
                         else if InRange(p, first + count, base + size - (first + count))
                              then m.pages[p].(base := first + count, size := base + size - (first + count))
                         else m.pages[p])
  }

  lemma SplitKeepsPartition(m: Memory, m': Memory, base: nat, size: nat, first: nat, count: nat)
    requires Partitioned(m) && Split(m, m', base, size, first, count)
    requires count > 0 && first in m.pages && m.pages[first].base == base && m.pages[first].size == size
    ensures Partitioned(m')
  {
    forall p: nat | p in m'.pages ensures InRange(p, m'.pages[p].base, m'.pages[p].size) {
    }
    forall p: nat, q: nat ensures Together(m', p, q) {
      if p in m'.pages && InRange(q, m'.pages[p].base, m'.pages[p].size) {
        SplitPair(m, m', base, size, first, count, p, q);
      }
    }
  }

  lemma SplitPair(m: Memory, m': Memory, base: nat, size: nat, first: nat, count: nat, p: nat, q: nat)
    requires Partitioned(m) && Split(m, m', base, size, first, count)
    requires count > 0 && first in m.pages && m.pages[first].base == base && m.pages[first].size == size
    requires p in m'.pages && InRange(q, m'.pages[p].base, m'.pages[p].size)
    ensures q in m'.pages && m'.pages[q].base == m'.pages[p].base && m'.pages[q].size == m'.pages[p].size
  {
    assert Together(m, first, p) && Together(m, first, q) && Together(m, p, q) && Together(m, q, p) && Together(m, p, first);
    assert InRange(first, base, size);
  }
}

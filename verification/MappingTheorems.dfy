/**
 The mapping functions of the memory object, call by call: when each succeeds, what it then does,
 that it otherwise does nothing but advance the stamp counter, and that reservations stay a partition.
 */
module MappingTheorems {
  import opened Options
  import opened GuestMemory
  import opened MemoryInvariants
  import opened MappingCalls
  import opened MappingEffects

  ghost predicate Healthy(m: Memory) {
    Inv(m) && Partitioned(m)
  }

  /** Nothing changed, except that stamps may have been used up. */
  ghost predicate OnlyStampsUsed(m: Memory, m': Memory) {
    m' == m.(generation := m'.generation) && m.generation <= m'.generation
  }

  lemma {:induction false} BurnsOnlyUseStamps(m: Memory, count: nat)
    ensures OnlyStampsUsed(m, Run(m, Burns(count)))
    decreases count
  {
    if count > 0 {
      assert Burns(count)[1..] == Burns(count - 1);
      BurnsOnlyUseStamps(Apply(m, Burn), count - 1);
    }
  }

  lemma NoEdits(m: Memory)
    ensures Run(m, []) == m
  {
  }

  /**
   Where a reservation is tried: at the caller's address, or at the first unmapped page from 4 GiB on, unless
   the search has to stop because addresses run out.
   */
  ghost predicate TriedAt(m: Memory, a: nat, n: nat, b: nat) {
    if a != 0 then b == a
    else
      && b >= 0x1_0000_0000 && b % 4096 == 0
      && (forall p: nat :: 0x10_0000 <= p < b / 4096 ==> p in m.pages)
      && (b / 4096 !in m.pages || b + n + 4096 > 0xFFFF_FFFF_FFFF_FFFF)
      && (b > 0x1_0000_0000 ==> b + n <= 0xFFFF_FFFF_FFFF_FFFF)
  }

  lemma {:induction false} GapIsTried(m: Memory, b: nat, n: nat)
    requires n + PAGE_SIZE <= UINT64_MAX && 0x10_0000 <= b
    requires forall p: nat :: 0x10_0000 <= p < b ==> p in m.pages
    requires b > 0x10_0000 ==> b * PAGE_SIZE + n <= UINT64_MAX
    ensures TriedAt(m, 0, n, FirstGap(m, b, n) * PAGE_SIZE)
    decreases UINT64_MAX - b
  {
    if b in m.pages && b * PAGE_SIZE <= UINT64_MAX - n - PAGE_SIZE {
      GapIsTried(m, b + 1, n);
    }
  }

  /** There is one such place. */
  lemma TriedOnce(m: Memory, a: nat, n: nat, b: nat, c: nat)
    requires TriedAt(m, a, n, b) && TriedAt(m, a, n, c)
    ensures b == c
  {
  }

  lemma BaseIsTried(m: Memory, a: nat, n: nat)
    requires n / 4096 <= 0x10_0000
    ensures TriedAt(m, a, n, ReserveBase(m, a, n))
  {
    if a == 0 {
      GapIsTried(m, 0x10_0000, n);
    }
  }

  /**
   `reserve` succeeds exactly on a well-formed, unmapped range, and maps it uncommitted.  Every failure has its own
   error.  An address of 0 asks for the first gap above 4 GiB.
   */
  lemma ReserveCall(m: Memory, a: nat, n: nat, granted: nat)
    requires Healthy(m)
    ensures var plan, b := ReservePlan(m, a, n, granted), ReserveBase(m, a, n);
            var m' := Run(m, plan.edits);
            && Healthy(m')
            && (plan.error != Ok ==> OnlyStampsUsed(m, m'))
            && (plan.error == Ok ==> ReserveEffect(m, m', b / PAGE_SIZE, n / PAGE_SIZE, n / PAGE_SIZE))
            && (plan.error == Ok <==>
                  n / PAGE_SIZE <= MAX_PAGES && RangeOk(b, n) && n / PAGE_SIZE <= granted
                  && forall p: nat :: InRange(p, b / PAGE_SIZE, n / PAGE_SIZE) ==> p !in m.pages)
            && (n / 4096 <= 0x10_0000 ==> TriedAt(m, a, n, b))
            && (forall b: nat :: TriedAt(m, a, n, b) ==>
                  && plan.error == (if n == 0 || n % 4096 != 0 || n / 4096 > 0x10_0000 then InvalidArgument
                                    else if !WholePages(b, n) then Overflow
                                    else if !Unmapped(m, b / 4096, n / 4096) then Conflict
                                    else if granted < n / 4096 then NoMemory
                                    else Ok)
                  && (plan.error == Ok ==> ReserveEffect(m, m', b / 4096, n / 4096, n / 4096)))
  {
    hide Inv, Run, ReserveEdits, ReserveBase, Burns, TriedAt;
    if n / 4096 <= 0x10_0000 {
      BaseIsTried(m, a, n);
      forall b: nat | TriedAt(m, a, n, b) ensures b == ReserveBase(m, a, n) {
        TriedOnce(m, a, n, b, ReserveBase(m, a, n));
      }
    }
    var plan, b := ReservePlan(m, a, n, granted), ReserveBase(m, a, n);
    var first, count := b / PAGE_SIZE, n / PAGE_SIZE;
    InvOverRun(m, plan.edits);
    NoEdits(m);
    BurnsOnlyUseStamps(m, granted);
    if plan.error == Ok {
      ReserveAll(m, first, count);
      NewIntervalKeepsPartition(m, Run(m, plan.edits), first, count);
    } else {
      SameIntervalsKeepPartition(m, Run(m, plan.edits));
    }
  }

  /** `alias` succeeds exactly when its source is committed and its destination is unmapped. */
  lemma AliasCall(m: Memory, a: nat, s: nat, n: nat, protection: Protection, granted: nat)
    requires Healthy(m)
    ensures var plan := AliasPlan(m, a, s, n, protection, granted);
            var m' := Run(m, plan.edits);
            && Healthy(m')
            && (plan.error != Ok ==> OnlyStampsUsed(m, m'))
            && (plan.error == Ok ==>
                  AliasEffect(m, m', a / PAGE_SIZE, s / PAGE_SIZE, n / PAGE_SIZE, protection, n / PAGE_SIZE))
            && (plan.error == Ok <==>
                  && WholePages(a, n) && WholePages(s, n) && KnownProtection(protection) && n / 4096 <= granted
                  && AllBacked(m, s / 4096, n / 4096) && Unmapped(m, a / 4096, n / 4096))
            && (if !WholePages(a, n) || !KnownProtection(protection) || !WholePages(s, n) then plan.error == InvalidArgument
                else if !AllBacked(m, s / 4096, n / 4096) then FirstLack(m, s / 4096, n / 4096, true, plan.error)
                else if !Unmapped(m, a / 4096, n / 4096) then plan.error == Conflict
                else if granted < n / 4096 then plan.error == NoMemory
                else plan.error == Ok)
  {
    hide Inv, Run, AliasEdits, Burns, CheckPages, FirstLack;
    CheckFinds(m, s / 4096, n / 4096, true);
    var plan := AliasPlan(m, a, s, n, protection, granted);
    InvOverRun(m, plan.edits);
    NoEdits(m);
    BurnsOnlyUseStamps(m, granted);
    CommittedIsBacked(m, s / PAGE_SIZE, n / PAGE_SIZE);
    if plan.error == Ok {
      AliasAll(m, a / PAGE_SIZE, s / PAGE_SIZE, n / PAGE_SIZE, protection);
      NewIntervalKeepsPartition(m, Run(m, plan.edits), a / PAGE_SIZE, n / PAGE_SIZE);
    } else {
      SameIntervalsKeepPartition(m, Run(m, plan.edits));
    }
  }

  lemma CommittedIsBacked(m: Memory, first: nat, count: nat)
    requires Inv(m)
    ensures AllBacked(m, first, count) <==>
              forall p: nat :: InRange(p, first, count) ==> p in m.pages && m.pages[p].backing.Some?
  {
    forall p: nat | p in m.pages && m.pages[p].backing.Some? ensures Backed(m, p) {
      MappedIsBacked(m, p);
    }
  }

  /** A check that does not ask for storage finds a page unmapped, or nothing. */
  lemma UncommittedCheck(m: Memory, first: nat, count: nat)
    ensures CheckPages(m, first, count, false) == if AllMapped(m, first, count) then Ok else NotReserved
  {
    hide CheckPages;
    CheckFinds(m, first, count, false);
  }

  /** `commit` succeeds exactly on a mapped range; pages already committed keep their content. */
  lemma CommitCall(m: Memory, a: nat, n: nat, protection: Protection, cells: Option<seq<Fresh>>)
    requires Healthy(m)
    requires cells.Some? ==> Allocated(m, cells.value) && |cells.value| == n / PAGE_SIZE
    ensures var plan := CommitPlan(m, a, n, protection, cells);
            var m' := Run(m, plan.edits);
            && Healthy(m')
            && (plan.error != Ok ==> m' == m)
            && plan.error == (if !WholePages(a, n) then InvalidArgument
                              else if !AllMapped(m, a / 4096, n / 4096) then NotReserved
                              else if !KnownProtection(protection) then InvalidArgument
                              else if cells.None? then NoMemory
                              else Ok)
            && (plan.error == Ok ==>
                  CommitEffect(m, m', a / PAGE_SIZE, cells.value, None, protection, n / PAGE_SIZE))
  {
    hide Inv, Run, CommitEdits, CheckPages, Allocated;
    UncommittedCheck(m, a / 4096, n / 4096);
    var plan := CommitPlan(m, a, n, protection, cells);
    InvOverRun(m, plan.edits);
    NoEdits(m);
    if plan.error == Ok {
      CommitAll(m, a / PAGE_SIZE, cells.value, None, protection);
      SameIntervalsKeepPartition(m, Run(m, plan.edits));
    }
  }

  lemma DecommitCall(m: Memory, a: nat, n: nat)
    requires Healthy(m)
    ensures var plan := DecommitPlan(m, a, n);
            var m' := Run(m, plan.edits);
            && Healthy(m')
            && (plan.error != Ok ==> m' == m)
            && plan.error == (if !WholePages(a, n) then InvalidArgument
                              else if !AllMapped(m, a / 4096, n / 4096) then NotReserved
                              else Ok)
            && (plan.error == Ok ==> DecommitEffect(m, m', a / PAGE_SIZE, n / PAGE_SIZE))
  {
    UncommittedCheck(m, a / 4096, n / 4096);
    hide Counted, Stamped, HostsKnown, Run, DecommitEdits, CheckPages, Dropped, SetOf;
    var plan := DecommitPlan(m, a, n);
    InvOverRun(m, plan.edits);
    NoEdits(m);
    if plan.error == Ok {
      DecommitAll(m, a / PAGE_SIZE, n / PAGE_SIZE);
      SameIntervalsKeepPartition(m, Run(m, plan.edits));
    }
  }

  lemma ProtectCall(m: Memory, a: nat, n: nat, protection: Protection)
    requires Healthy(m)
    ensures var plan := ProtectPlan(m, a, n, protection);
            var m' := Run(m, plan.edits);
            && Healthy(m')
            && (plan.error != Ok ==> m' == m)
            && (if !WholePages(a, n) then plan.error == InvalidArgument
                else if !AllBacked(m, a / 4096, n / 4096) then FirstLack(m, a / 4096, n / 4096, true, plan.error) && plan.error != Ok
                else plan.error == if KnownProtection(protection) then Ok else InvalidArgument)
            && (plan.error == Ok ==> ProtectEffect(m, m', a / PAGE_SIZE, n / PAGE_SIZE, protection))
  {
    hide Inv, Run, ProtectEdits, CheckPages, FirstLack;
    CheckFinds(m, a / 4096, n / 4096, true);
    var plan := ProtectPlan(m, a, n, protection);
    InvOverRun(m, plan.edits);
    NoEdits(m);
    CommittedIsBacked(m, a / PAGE_SIZE, n / PAGE_SIZE);
    if plan.error == Ok {
      ProtectAll(m, a / PAGE_SIZE, n / PAGE_SIZE, protection);
      SameIntervalsKeepPartition(m, Run(m, plan.edits));
    }
  }

  /** `release` succeeds exactly on one whole reservation, and then unmaps it and nothing else. */
  lemma ReleaseCall(m: Memory, a: nat, n: nat)
    requires Healthy(m)
    ensures var plan := ReleasePlan(m, a, n);
            var m' := Run(m, plan.edits);
            && Healthy(m')
            && (plan.error != Ok ==> m' == m)
            && (plan.error == Ok <==>
                  WholePages(a, n) && a / 4096 in m.pages
                  && m.pages[a / 4096].base == a / 4096 && m.pages[a / 4096].size == n / 4096)
            && (plan.error != Ok ==>
                  plan.error == if WholePages(a, n) && !AllMapped(m, a / 4096, n / 4096) then NotReserved else InvalidArgument)
            && (plan.error == Ok ==> RemoveEffect(m, m', SetOf(Ascending(a / PAGE_SIZE, n / PAGE_SIZE))))
  {
    hide Counted, Stamped, HostsKnown, Run, RemoveEdits, Ascending, CheckPages, Dropped, SetOf;
    UncommittedCheck(m, a / 4096, n / 4096);
    var plan := ReleasePlan(m, a, n);
    var first, count := a / PAGE_SIZE, n / PAGE_SIZE;
    InvOverRun(m, plan.edits);
    NoEdits(m);
    if first in m.pages {
      ReservationWhole(m, first);
    }
    if plan.error == Ok {
      assert AllMapped(m, first, count);
      RemoveRange(m, first, count);
      AscendingGrows(first, count);
      assert Split(m, Run(m, plan.edits), first, count, first, count);
      SplitKeepsPartition(m, Run(m, plan.edits), first, count, first, count);
    }
  }

  /** The three phases of `unmap`: the left part, the right part, the removal. */
  lemma UnmapRun(m: Memory, first: nat, count: nat, base: nat, size: nat)
    requires Healthy(m) && base <= first && first + count <= base + size && AllMapped(m, base, size)
    ensures var m' := Run(m, RebaseEdits(base, first) + RebaseEdits(first + count, base + size)
                             + RemoveEdits(Ascending(first, count)));
            && SameElsewhere(m, m') && m'.generation == m.generation
            && Split(m, m', base, size, first, count)
            && Dropped(m, m', SetOf(Ascending(first, count)))
  {
    hide Counted, Stamped, HostsKnown, Run, RebaseEdits, RemoveEdits, Ascending, Dropped, SetOf, Partitioned;
    var left, right, gone :=
      RebaseEdits(base, first), RebaseEdits(first + count, base + size), RemoveEdits(Ascending(first, count));
    var m1 := Run(m, left);
    RebaseAll(m, base, first);
    var m2 := Run(m1, right);
    RebaseAll(m1, first + count, base + size);
    InvOverRun(m, left);
    InvOverRun(m1, right);
    RemoveRange(m2, first, count);
    RunAppend(m, left, right);
    RunAppend(m, left + right, gone);
    AscendingGrows(first, count);
    DroppedSame(m, m2, Run(m2, gone), SetOf(Ascending(first, count)));
  }

  lemma DroppedSame(m: Memory, m2: Memory, m': Memory, pages: set<nat>)
    requires Dropped(m2, m', pages) && m2.backings == m.backings && m2.pages.Keys == m.pages.Keys
    requires forall p: nat :: p in m.pages ==> m2.pages[p].backing == m.pages[p].backing
    ensures Dropped(m, m', pages)
  {
    assert forall b :: HeldBy(m2, pages, b) == HeldBy(m, pages, b);
  }

  ghost predicate InsideReservation(m: Memory, a: nat, n: nat) {
    var first := a / PAGE_SIZE;
    WholePages(a, n) && first in m.pages && first + n / PAGE_SIZE <= m.pages[first].base + m.pages[first].size
  }

  lemma UnmapDecision(m: Memory, a: nat, n: nat)
    requires Partitioned(m)
    ensures var plan, first, count := UnmapPlan(m, a, n), a / PAGE_SIZE, n / PAGE_SIZE;
            && (plan.error == Ok <==> InsideReservation(m, a, n))
            && (plan.error != Ok ==>
                  plan.error == if WholePages(a, n) && !AllMapped(m, first, count) then NotReserved else InvalidArgument)
            && (plan.error != Ok ==> plan.edits == [])
            && (plan.error == Ok ==>
                  var base, size := m.pages[first].base, m.pages[first].size;
                  && base <= first && AllMapped(m, base, size) && count > 0
                  && plan.edits == RebaseEdits(base, first) + RebaseEdits(first + count, base + size)
                                   + RemoveEdits(Ascending(first, count)))
  {
    hide RebaseEdits, RemoveEdits, Ascending, CheckPages;
    UncommittedCheck(m, a / 4096, n / 4096);
    var first, count := a / PAGE_SIZE, n / PAGE_SIZE;
    if InsideReservation(m, a, n) {
      var base, size := m.pages[first].base, m.pages[first].size;
      ReservationWhole(m, first);
      assert forall p: nat :: InRange(p, first, count) ==> InRange(p, base, size);
      assert SameReservation(m, first, count, base, size);
    } else if RangeOk(a, n) {
      assert InRange(first, first, count);
    }
  }

  /** `unmap` succeeds exactly inside one reservation, and leaves its two sides as reservations. */
  lemma UnmapCall(m: Memory, a: nat, n: nat)
    requires Healthy(m)
    ensures var plan := UnmapPlan(m, a, n);
            var first, count := a / PAGE_SIZE, n / PAGE_SIZE;
            var m' := Run(m, plan.edits);
            && Healthy(m')
            && (plan.error != Ok ==> m' == m)
            && (plan.error == Ok <==> InsideReservation(m, a, n))
            && (plan.error != Ok ==>
                  plan.error == if WholePages(a, n) && !AllMapped(m, first, count) then NotReserved else InvalidArgument)
            && (plan.error == Ok ==>
                  && Split(m, m', m.pages[first].base, m.pages[first].size, first, count)
                  && Dropped(m, m', SetOf(Ascending(first, count)))
                  && SameElsewhere(m, m') && m'.generation == m.generation)
  {
    hide Inv, Run, UnmapPlan, Dropped, SetOf, Partitioned, Split, AllMapped;
    var plan := UnmapPlan(m, a, n);
    var first, count := a / PAGE_SIZE, n / PAGE_SIZE;
    InvOverRun(m, plan.edits);
    NoEdits(m);
    UnmapDecision(m, a, n);
    if plan.error == Ok {
      var base, size := m.pages[first].base, m.pages[first].size;
      UnmapRun(m, first, count, base, size);
      SplitKeepsPartition(m, Run(m, plan.edits), base, size, first, count);
    }
  }

  // ---- Host-backed pages ----

  /** How many pages of the range have no storage yet. */
  ghost function Uncommitted(m: Memory, first: nat, count: nat): nat
    decreases count
  {
    if count == 0 then 0
    else (if first in m.pages && m.pages[first].backing.Some? then 0 else 1) + Uncommitted(m, first + 1, count - 1)
  }

  /** Every page of the range is uncommitted or already is its host page. */
  ghost predicate HostFree(m: Memory, first: nat, host: nat, count: nat) {
    forall p: nat :: InRange(p, first, count) ==>
      && p in m.pages
      && (m.pages[p].backing.Some? ==>
            Backed(m, p) && m.backings[BackingOf(m, p)].data == External(host + (p - first)))
  }

  lemma HostFreeNext(m: Memory, first: nat, host: nat, count: nat)
    requires count > 0
    ensures HostFree(m, first, host, count) <==>
              && first in m.pages && (m.pages[first].backing.Some? ==> HoldsHost(m, first, host))
              && HostFree(m, first + 1, host + 1, count - 1)
  {
    assert InRange(first, first, count);
    assert forall p: nat :: InRange(p, first, count) <==> p == first || InRange(p, first + 1, count - 1);
  }

  /** The scan finds no obstacle exactly when there is none, in whatever order it meets them. */
  lemma {:induction false} CommitHostDecision(m: Memory, first: nat, host: nat, count: nat, granted: nat)
    requires forall p: nat :: InRange(p, first, count) ==> p in m.pages
    ensures CommitHostCheck(m, first, host, count, granted) == Ok <==>
              HostFree(m, first, host, count) && Uncommitted(m, first, count) <= granted
    ensures CommitHostCheck(m, first, host, count, granted) in {Ok, Conflict, NoMemory}
    ensures CommitHostCheck(m, first, host, count, granted) == Conflict <==> MeetsForeign(m, first, host, count, granted)
    ensures Uncommitted(m, first, count) <= granted ==> CommitHostCheck(m, first, host, count, granted) != NoMemory
    decreases count
  {
    hide HostFree, HoldsHost, MeetsForeign, Uncommitted;
    UncommittedFrom(m, first, count);
    MeetsNone(m, first, host, granted);
    if count == 0 {
      assert HostFree(m, first, host, 0) by { HostFreeNone(m, first, host); }
    } else {
      HostFreeNext(m, first, host, count);
      ForeignFrom(m, first, host, count, granted);
      assert InRange(first, first, count);
      assert forall p: nat :: InRange(p, first + 1, count - 1) ==> InRange(p, first, count);
      if m.pages[first].backing.Some? {
        CommitHostDecision(m, first + 1, host + 1, count - 1, granted);
      } else if granted > 0 {
        CommitHostDecision(m, first + 1, host + 1, count - 1, granted - 1);
      }
    }
  }

  /** The first foreign page of the range is the k-th, and backings last until there. */
  ghost predicate ForeignAt(m: Memory, first: nat, host: nat, granted: nat, k: nat) {
    HostFree(m, first, host, k) && !HostFree(m, first, host, k + 1) && Uncommitted(m, first, k) <= granted
  }

  ghost predicate MeetsForeign(m: Memory, first: nat, host: nat, count: nat, granted: nat) {
    exists k: nat :: k < count && ForeignAt(m, first, host, granted, k)
  }

  lemma MeetsNone(m: Memory, first: nat, host: nat, granted: nat)
    ensures !MeetsForeign(m, first, host, 0, granted)
  {
  }

  lemma UncommittedFrom(m: Memory, first: nat, count: nat)
    ensures Uncommitted(m, first, count)
         == if count == 0 then 0
            else (if first in m.pages && m.pages[first].backing.Some? then 0 else 1) + Uncommitted(m, first + 1, count - 1)
  {
  }

  /** Where the first foreign page is, as seen from the page after the first. */
  lemma ForeignFrom(m: Memory, first: nat, host: nat, count: nat, granted: nat)
    requires count > 0 && first in m.pages
    ensures var own := m.pages[first].backing.None? || HoldsHost(m, first, host);
            var left: int := granted - if m.pages[first].backing.None? then 1 else 0;
            MeetsForeign(m, first, host, count, granted) <==>
              !own || (left >= 0 && MeetsForeign(m, first + 1, host + 1, count - 1, left))
  {
    hide HostFree, Uncommitted, ForeignAt;
    var own := m.pages[first].backing.None? || HoldsHost(m, first, host);
    var left: int := granted - if m.pages[first].backing.None? then 1 else 0;
    FirstForeign(m, first, host, granted);
    if own && left >= 0 {
      var next, after := first + 1, host + 1;
      if MeetsForeign(m, next, after, count - 1, left) {
        var k: nat :| k < count - 1 && ForeignAt(m, next, after, left, k);
        ForeignNext(m, first, host, granted, k);
      }
      if MeetsForeign(m, first, host, count, granted) {
        var k: nat :| k < count && ForeignAt(m, first, host, granted, k);
        ForeignNext(m, first, host, granted, k - 1);
      }
    } else if own {
      forall k: nat | k < count ensures !ForeignAt(m, first, host, granted, k) {
        NoneLeft(m, first, host, k);
      }
    }
  }

  lemma FirstForeign(m: Memory, first: nat, host: nat, granted: nat)
    requires first in m.pages
    ensures ForeignAt(m, first, host, granted, 0) <==> !(m.pages[first].backing.None? || HoldsHost(m, first, host))
  {
    hide HostFree, HoldsHost;
    HostFreeNone(m, first, host);
    HostFreeNone(m, first + 1, host + 1);
    HostFreeNext(m, first, host, 1);
  }

  lemma NoneLeft(m: Memory, first: nat, host: nat, k: nat)
    requires first in m.pages && m.pages[first].backing.None?
    ensures !ForeignAt(m, first, host, 0, k)
  {
    hide HostFree;
    HostFreeNone(m, first, host);
    HostFreeNone(m, first + 1, host + 1);
    HostFreeNext(m, first, host, 1);
    UncommittedFrom(m, first, k);
  }

  lemma ForeignNext(m: Memory, first: nat, host: nat, granted: nat, k: nat)
    requires first in m.pages && (m.pages[first].backing.None? || HoldsHost(m, first, host))
    requires m.pages[first].backing.None? ==> granted > 0
    ensures ForeignAt(m, first + 1, host + 1, granted - (if m.pages[first].backing.None? then 1 else 0), k)
       <==> ForeignAt(m, first, host, granted, k + 1)
  {
    hide HostFree, Uncommitted, HoldsHost;
    HostFreeNext(m, first, host, k + 1);
    HostFreeNext(m, first, host, k + 2);
    UncommittedFrom(m, first, k + 1);
  }

  lemma HostFreeNone(m: Memory, first: nat, host: nat)
    ensures HostFree(m, first, host, 0)
  {
  }

  /**
   `commit_external` succeeds exactly on a mapped range each of whose pages is uncommitted or already is
   that host page, with backings to be had for the uncommitted ones.  Afterwards every page is its host page.
   */
  lemma CommitExternalCall(
    m: Memory, a: nat, host: nat, n: nat, protection: Protection, requireIdentity: bool,
    granted: Option<nat>, cells: seq<Fresh>)
    requires Healthy(m) && Allocated(m, cells) && |cells| == n / PAGE_SIZE
    requires HostReady(m, Some(host / PAGE_SIZE), n / PAGE_SIZE)
    ensures var plan := CommitExternalPlan(m, a, host, n, protection, requireIdentity, granted, cells);
            var m' := Run(m, plan.edits);
            && Healthy(m')
            && (plan.error != Ok ==> m' == m)
            && (plan.error == Ok <==>
                  && host != 0 && host % 4096 == 0 && (requireIdentity ==> a >= 0x1_0000_0000 && a == host)
                  && WholePages(a, n) && KnownProtection(protection)
                  && HostFree(m, a / 4096, host / 4096, n / 4096)
                  && granted.Some? && Uncommitted(m, a / 4096, n / 4096) <= granted.value)
            && (if host == 0 || host % 4096 != 0 || (requireIdentity && (a < 0x1_0000_0000 || a != host))
                   || !WholePages(a, n) || !KnownProtection(protection)
                then plan.error == InvalidArgument
                else if !AllMapped(m, a / 4096, n / 4096) then plan.error == NotReserved
                else if granted.None? then plan.error == NoMemory
                else if MeetsForeign(m, a / 4096, host / 4096, n / 4096, granted.value)
                then plan.error == Conflict
                else plan.error == if Uncommitted(m, a / 4096, n / 4096) > granted.value then NoMemory else Ok)
            && (plan.error == Ok ==>
                  && CommitEffect(m, m', a / PAGE_SIZE, cells, Some(host / PAGE_SIZE), protection, n / PAGE_SIZE)
                  && AllHost(m', a / PAGE_SIZE, host / PAGE_SIZE, n / PAGE_SIZE))
  {
    hide Inv, Run, CommitEdits, CheckPages, CommitHostCheck, Allocated, HostFree, MeetsForeign, AllHost, Uncommitted, CommitEffect;
    var plan := CommitExternalPlan(m, a, host, n, protection, requireIdentity, granted, cells);
    InvOverRun(m, plan.edits);
    NoEdits(m);
    UncommittedCheck(m, a / 4096, n / 4096);
    if HostFree(m, a / PAGE_SIZE, host / PAGE_SIZE, n / PAGE_SIZE) {
      HostFreeMapped(m, a / PAGE_SIZE, host / PAGE_SIZE, n / PAGE_SIZE);
    }
    if Check(m, a, n, false) == Ok && granted.Some? {
      CommitHostDecision(m, a / PAGE_SIZE, host / PAGE_SIZE, n / PAGE_SIZE, granted.value);
    }
    if plan.error == Ok {
      CommitAll(m, a / PAGE_SIZE, cells, Some(host / PAGE_SIZE), protection);
      CommitEffectIntervals(m, Run(m, plan.edits), a / PAGE_SIZE, cells, Some(host / PAGE_SIZE), protection);
      EveryPageIsHost(m, Run(m, plan.edits), a / PAGE_SIZE, cells, host / PAGE_SIZE, protection);
      SameIntervalsKeepPartition(m, Run(m, plan.edits));
    }
  }

  /** Every page of the range is backed by its host page. */
  ghost predicate AllHost(m: Memory, first: nat, host: nat, count: nat) {
    forall p: nat :: InRange(p, first, count) ==>
      Backed(m, p) && m.backings[BackingOf(m, p)].data == External(host + (p - first))
  }

  lemma HostFreeMapped(m: Memory, first: nat, host: nat, count: nat)
    requires HostFree(m, first, host, count)
    ensures AllMapped(m, first, count)
  {
  }

  lemma CommitEffectIntervals(m: Memory, m': Memory, first: nat, cells: seq<Fresh>, host: Option<nat>, protection: Protection)
    requires CommitEffect(m, m', first, cells, host, protection, |cells|)
    ensures SameIntervals(m, m')
  {
  }

  lemma EveryPageIsHost(m: Memory, m': Memory, first: nat, cells: seq<Fresh>, host: nat, protection: Protection)
    requires CommitEffect(m, m', first, cells, Some(host), protection, |cells|)
    requires HostFree(m, first, host, |cells|)
    ensures AllHost(m', first, host, |cells|)
  {
    forall p: nat | InRange(p, first, |cells|)
      ensures Backed(m', p) && m'.backings[BackingOf(m', p)].data == External(host + (p - first))
    {
      assert p in m.pages && DataAt(Some(host), p - first) == External(host + (p - first));
    }
  }

  /** After a committed run of new pages, the only new backings are the ones allocated for it. */
  lemma NewBackingsAreCells(m: Memory, m2: Memory, first: nat, cells: seq<Fresh>, b: BackingId)
    requires Inv(m) && Inv(m2) && SameElsewhere(m, m2)
    requires forall p: nat :: p in m2.pages && !InRange(p, first, |cells|) && m2.pages[p].backing.Some? ==>
               p in m.pages && m.pages[p].backing == m2.pages[p].backing
    requires forall p: nat :: p in m2.pages && InRange(p, first, |cells|) ==> m2.pages[p].backing == Some(cells[p - first].id)
    requires b in m2.backings && b !in m.backings
    ensures exists p: nat :: p in m2.pages && InRange(p, first, |cells|) && m2.pages[p].backing == Some(b)
  {
    assert Refs(m2, b) > 0;
    assert |Holders(m2, b)| > 0;
    var h :| h in Holders(m2, b);
    assert Held(m, h) != Some(b) by {
      if Held(m, h).Some? {
        HolderAlive(m, h);
      }
    }
  }

  /** A range of pages mapped onto newly allocated backings as far as they reach, onto none beyond. */
  ghost predicate MappedOntoCells(m: Memory, m2: Memory, first: nat, count: nat, cells: seq<Fresh>) {
    && SameElsewhere(m, m2) && |cells| <= count
    && (forall p: nat :: p in m2.pages <==> p in m.pages || InRange(p, first, count))
    && (forall p: nat :: p in m.pages ==> !InRange(p, first, count) && m2.pages[p] == m.pages[p])
    && (forall p: nat :: InRange(p, first, count) ==>
          m2.pages[p].backing == if InRange(p, first, |cells|) then Some(cells[p - first].id) else None)
    && (forall b :: b in m.backings ==> b in m2.backings && m2.backings[b] == m.backings[b])
    && (forall p: nat :: InRange(p, first, |cells|) ==>
          && cells[p - first].id !in m.backings
          && cells[p - first].id in m2.backings && m2.backings[cells[p - first].id].refs == 1)
  }

  lemma OldBackingsUntouched(m: Memory, m2: Memory, m3: Memory, first: nat, count: nat, cells: seq<Fresh>, b: BackingId)
    requires Live(m, PageRef(0)) && MappedOntoCells(m, m2, first, count, cells)
    requires RemoveEffect(m2, m3, SetOf(Ascending(first, count))) && b in m.backings
    ensures b in m3.backings && m3.backings[b] == m.backings[b]
  {
    var range := SetOf(Ascending(first, count));
    AscendingGrows(first, count);
    hide SetOf;
    assert HeldBy(m2, range, b) == {};
  }

  lemma NewBackingsGone(m: Memory, m2: Memory, m3: Memory, first: nat, count: nat, cells: seq<Fresh>, b: BackingId)
    requires Inv(m) && Inv(m2) && MappedOntoCells(m, m2, first, count, cells)
    requires RemoveEffect(m2, m3, SetOf(Ascending(first, count))) && b in m2.backings && b !in m.backings
    ensures b !in m3.backings
  {
    hide SetOf, Inv;
    var range := SetOf(Ascending(first, count));
    AscendingGrows(first, count);
    NewBackingsAreCells(m, m2, first, cells, b);
    var p: nat :| p in m2.pages && InRange(p, first, |cells|) && m2.pages[p].backing == Some(b);
    assert p in HeldBy(m2, range, b);
  }

  /** Undoing a reservation whose pages were only given newly allocated backings restores everything. */
  lemma RollbackRestores(m: Memory, m2: Memory, m3: Memory, first: nat, count: nat, cells: seq<Fresh>)
    requires Inv(m) && Inv(m2) && MappedOntoCells(m, m2, first, count, cells)
    requires RemoveEffect(m2, m3, SetOf(Ascending(first, count)))
    ensures m3.pages == m.pages && m3.backings == m.backings
  {
    hide SetOf, Counted, Stamped, HostsKnown;
    AscendingGrows(first, count);
    CountedLive(m, PageRef(0));
    forall b | b in m.backings ensures b in m3.backings && m3.backings[b] == m.backings[b] {
      OldBackingsUntouched(m, m2, m3, first, count, cells, b);
    }
    forall b | b in m3.backings ensures b in m.backings {
      if b !in m.backings {
        NewBackingsGone(m, m2, m3, first, count, cells, b);
      }
    }
    assert m3.pages == m.pages;
  }

  /** The states an identity mapping goes through: reserved, then host-backed as far as backings last. */
  lemma MapIdentityRun(m: Memory, first: nat, count: nat, cells: seq<Fresh>, protection: Protection)
    requires Healthy(m) && Allocated(m, cells) && |cells| <= count
    requires HostReady(m, Some(first), count)
    requires forall p: nat :: InRange(p, first, count) ==> p !in m.pages
    ensures var m1 := Run(m, ReserveEdits(first, count));
            var m2 := Run(m1, CommitEdits(first, cells, Some(first), protection));
            && Inv(m2)
            && ReserveEffect(m, m1, first, count, count)
            && CommitEffect(m1, m2, first, cells, Some(first), protection, |cells|)
            && m2 == Run(m, ReserveEdits(first, count) + CommitEdits(first, cells, Some(first), protection))
  {
    hide Inv, Run, ReserveEdits, CommitEdits;
    var edits := ReserveEdits(first, count) + CommitEdits(first, cells, Some(first), protection);
    var m1 := Run(m, ReserveEdits(first, count));
    ReserveAll(m, first, count);
    assert forall h: nat :: InRange(h, first, |cells|) ==> InRange(h, first, count);
    assert AllMapped(m1, first, |cells|);
    CommitAll(m1, first, cells, Some(first), protection);
    RunAppend(m, ReserveEdits(first, count), CommitEdits(first, cells, Some(first), protection));
    InvOverRun(m, edits);
  }

  lemma MapIdentityCells(
    m: Memory, m1: Memory, m2: Memory, first: nat, count: nat, cells: seq<Fresh>, protection: Protection)
    requires Allocated(m, cells) && |cells| <= count
    requires forall p: nat :: InRange(p, first, count) ==> p !in m.pages
    requires ReserveEffect(m, m1, first, count, count)
    requires CommitEffect(m1, m2, first, cells, Some(first), protection, |cells|)
    ensures MappedOntoCells(m, m2, first, count, cells)
  {
    hide DataAt;
    assert forall p: nat :: InRange(p, first, |cells|) ==> InRange(p, first, count);
  }

  lemma MapIdentityUndone(m: Memory, first: nat, count: nat, cells: seq<Fresh>, protection: Protection)
    requires Healthy(m) && Allocated(m, cells) && |cells| <= count && HostReady(m, Some(first), count)
    requires forall p: nat :: InRange(p, first, count) ==> p !in m.pages
    ensures OnlyStampsUsed(m, Run(m, ReserveEdits(first, count) + CommitEdits(first, cells, Some(first), protection)
                                     + RemoveEdits(Ascending(first, count))))
  {
    hide Inv, Run, ReserveEdits, CommitEdits, RemoveEdits, Ascending, SetOf, Allocated, HostReady, Partitioned;
    MapIdentityRun(m, first, count, cells, protection);
    var m1 := Run(m, ReserveEdits(first, count));
    var m2 := Run(m1, CommitEdits(first, cells, Some(first), protection));
    assert AllMapped(m2, first, count);
    InvCounted(m2);
    RemoveRange(m2, first, count);
    RunAppend(m, ReserveEdits(first, count) + CommitEdits(first, cells, Some(first), protection),
              RemoveEdits(Ascending(first, count)));
    MapIdentityCells(m, m1, m2, first, count, cells, protection);
    RollbackRestores(m, m2, Run(m2, RemoveEdits(Ascending(first, count))), first, count, cells);
  }

  lemma InvCounted(m: Memory)
    requires Inv(m)
    ensures Counted(m)
  {
  }

  ghost predicate IdentityMapped(m: Memory, m': Memory, first: nat, count: nat, protection: Protection) {
    && (forall p: nat :: p in m'.pages <==> p in m.pages || InRange(p, first, count))
    && (forall p: nat :: p in m.pages ==> m'.pages[p] == m.pages[p])
    && (forall b :: b in m.backings ==> b in m'.backings && m'.backings[b] == m.backings[b])
    && SameElsewhere(m, m')
    && (forall p: nat :: InRange(p, first, count) ==>
          && m'.pages[p].base == first && m'.pages[p].size == count
          && m'.pages[p].protection == protection
          && Backed(m', p) && m'.backings[BackingOf(m', p)].data == External(p))
  }

  lemma IdentityPage(
    m: Memory, m1: Memory, m2: Memory, first: nat, cells: seq<Fresh>, protection: Protection, p: nat)
    requires ReserveEffect(m, m1, first, |cells|, |cells|) && InRange(p, first, |cells|)
    requires CommitEffect(m1, m2, first, cells, Some(first), protection, |cells|)
    ensures p in m2.pages && m2.pages[p].base == first && m2.pages[p].size == |cells|
    ensures m2.pages[p].protection == protection
    ensures Backed(m2, p) && m2.backings[BackingOf(m2, p)].data == External(p)
  {
    assert m1.pages[p].backing.None?;
    assert DataAt(Some(first), p - first) == External(p);
  }

  lemma MapIdentityKept(m: Memory, m1: Memory, m2: Memory, first: nat, cells: seq<Fresh>, protection: Protection)
    requires Allocated(m, cells) && ReserveEffect(m, m1, first, |cells|, |cells|)
    requires CommitEffect(m1, m2, first, cells, Some(first), protection, |cells|)
    ensures SameElsewhere(m, m2)
    ensures forall b :: b in m.backings ==> b in m2.backings && m2.backings[b] == m.backings[b]
  {
  }

  lemma MapIdentityDone(m: Memory, first: nat, cells: seq<Fresh>, protection: Protection)
    requires Healthy(m) && Allocated(m, cells) && HostReady(m, Some(first), |cells|)
    requires forall p: nat :: InRange(p, first, |cells|) ==> p !in m.pages
    ensures IdentityMapped(
              m, Run(m, ReserveEdits(first, |cells|) + CommitEdits(first, cells, Some(first), protection)),
              first, |cells|, protection)
  {
    hide Inv, Run, ReserveEdits, CommitEdits, Allocated, HostReady, Partitioned, CommitBackings;
    MapIdentityRun(m, first, |cells|, cells, protection);
    var m1 := Run(m, ReserveEdits(first, |cells|));
    var m2 := Run(m1, CommitEdits(first, cells, Some(first), protection));
    MapIdentityKept(m, m1, m2, first, cells, protection);
    forall p: nat | InRange(p, first, |cells|)
      ensures m2.pages[p].base == first && m2.pages[p].size == |cells| && m2.pages[p].protection == protection
           && Backed(m2, p) && m2.backings[BackingOf(m2, p)].data == External(p)
    {
      IdentityPage(m, m1, m2, first, cells, protection, p);
    }
  }

  /**
   `map_identity` maps the whole range onto the host, exactly when the range is well formed, high enough and
   unmapped and there is room for it; otherwise it leaves mapping and backings untouched.
   */
  lemma MapIdentityCall(
    m: Memory, a: nat, host: nat, n: nat, protection: Protection, granted: nat, cells: seq<Fresh>)
    requires Healthy(m) && Allocated(m, cells) && |cells| <= n / PAGE_SIZE
    requires HostReady(m, Some(a / PAGE_SIZE), n / PAGE_SIZE)
    ensures var plan := MapIdentityPlan(m, a, host, n, protection, granted, cells);
            var m' := Run(m, plan.edits);
            && Healthy(m')
            && (plan.error != Ok ==> OnlyStampsUsed(m, m'))
            && plan.error == (if host == 0 || a < 0x1_0000_0000 || a != host || !WholePages(a, n) || !KnownProtection(protection)
                                 || n / 4096 > 0x10_0000
                              then InvalidArgument
                              else if !Unmapped(m, a / 4096, n / 4096) then Conflict
                              else if granted < n / 4096 || |cells| < n / 4096 then NoMemory
                              else Ok)
            && (plan.error == Ok ==> IdentityMapped(m, m', a / PAGE_SIZE, n / PAGE_SIZE, protection))
  {
    hide Inv, Run, ReserveEdits, CommitEdits, RemoveEdits, Ascending, Allocated, HostReady, Partitioned;
    var plan := MapIdentityPlan(m, a, host, n, protection, granted, cells);
    var first, count := a / PAGE_SIZE, n / PAGE_SIZE;
    NoEdits(m);
    InvOverRun(m, plan.edits);
    ReserveCall(m, a, n, granted);
    if plan.error != InvalidArgument && ReservePlan(m, a, n, granted).error == Ok {
      if |cells| < count {
        MapIdentityUndone(m, first, count, cells, protection);
        SameIntervalsKeepPartition(m, Run(m, plan.edits));
      } else {
        assert cells[..count] == cells;
        MapIdentityDone(m, first, cells, protection);
        NewIntervalKeepsPartition(m, Run(m, plan.edits), first, count);
      }
    }
  }

  /** Both KUSER pages on one backing, with new stamps and all else as it was. */
  ghost predicate KuserPages(m: Memory, m': Memory, cell: Fresh) {
    && KUSER_CANONICAL == 0x1007ffe0 && KUSER_SHARED == 0x7ffe0
    && KUSER_CANONICAL in m.pages && KUSER_SHARED in m.pages
    && m'.pages == m.pages[
         KUSER_CANONICAL := m.pages[KUSER_CANONICAL].(backing := Some(cell.id), generation := m.generation + 1)][
         KUSER_SHARED := m.pages[KUSER_SHARED].(backing := Some(cell.id), generation := m.generation + 2)]
    && m'.generation == m.generation + 2
  }

  /** The new backing with its two references; of the others only the one given up may have changed, in its count. */
  ghost predicate KuserBackings(m: Memory, m': Memory, cell: Fresh, h: nat)
    requires KUSER_CANONICAL in m.pages
  {
    && cell.id in m'.backings && m'.backings[cell.id] == Backing(External(h), 2, cell.generation)
    && (forall b :: b in m'.backings && b != cell.id ==>
          b in m.backings && m'.backings[b] == m.backings[b].(refs := m'.backings[b].refs))
    && (forall b :: b in m.backings && Some(b) != m.pages[KUSER_CANONICAL].backing && b != cell.id ==>
          b in m'.backings && m'.backings[b] == m.backings[b])
  }

  ghost predicate KuserBound(m: Memory, m': Memory, cell: Fresh, h: nat) {
    && SameIntervals(m, m') && SameElsewhere(m, m')
    && KuserPages(m, m', cell) && KuserBackings(m, m', cell, h)
  }

  lemma KuserBinding(m: Memory, cell: Fresh, h: nat)
    requires Backed(m, KUSER_CANONICAL) && Backed(m, KUSER_SHARED)
    requires BackingOf(m, KUSER_CANONICAL) == BackingOf(m, KUSER_SHARED) != cell.id
    ensures KuserBound(m, SharePage(ReplacePage(m, KUSER_CANONICAL, cell, h), KUSER_SHARED, cell.id), cell, h)
  {
    hide KuserPages, KuserBackings;
    KuserBindsPages(m, cell, h);
    KuserBindsBackings(m, cell, h);
  }

  lemma KuserBindsPages(m: Memory, cell: Fresh, h: nat)
    requires Backed(m, KUSER_CANONICAL) && Backed(m, KUSER_SHARED)
    requires BackingOf(m, KUSER_CANONICAL) == BackingOf(m, KUSER_SHARED) != cell.id
    ensures KuserPages(m, SharePage(ReplacePage(m, KUSER_CANONICAL, cell, h), KUSER_SHARED, cell.id), cell)
  {
    hide Retain, Drop, DropOption;
  }

  lemma KuserBindsBackings(m: Memory, cell: Fresh, h: nat)
    requires Backed(m, KUSER_CANONICAL) && Backed(m, KUSER_SHARED)
    requires BackingOf(m, KUSER_CANONICAL) == BackingOf(m, KUSER_SHARED) != cell.id
    ensures KuserBackings(m, SharePage(ReplacePage(m, KUSER_CANONICAL, cell, h), KUSER_SHARED, cell.id), cell, h)
  {
  }

  /** `bind_kuser` moves both KUSER pages to one new host-backed page, exactly when they share one; or changes nothing. */
  lemma BindKuserCall(m: Memory, host: nat, cell: Option<Fresh>)
    requires Healthy(m) && host / PAGE_SIZE in m.host && (cell.Some? ==> IsFresh(m, cell.value))
    ensures var plan := BindKuserPlan(m, host, cell);
            var m' := Run(m, plan.edits);
            && Healthy(m')
            && (plan.error != Ok ==> m' == m)
            && plan.error == (if host == 0 || host % 4096 != 0 then InvalidArgument
                              else if KUSER_CANONICAL !in m.pages || KUSER_SHARED !in m.pages
                                      || m.pages[KUSER_CANONICAL].backing == None
                                      || m.pages[KUSER_CANONICAL].backing != m.pages[KUSER_SHARED].backing
                              then Conflict
                              else if cell == None then NoMemory
                              else Ok)
            && (plan.error == Ok ==> KuserBound(m, m', cell.value, host / PAGE_SIZE))
  {
    hide Inv, Run, Apply, SharePage, ReplacePage, Partitioned, KuserBound;
    var plan := BindKuserPlan(m, host, cell);
    InvOverRun(m, plan.edits);
    NoEdits(m);
    InvCounted(m);
    if KUSER_CANONICAL in m.pages && m.pages[KUSER_CANONICAL].backing.Some? {
      MappedIsBacked(m, KUSER_CANONICAL);
    }
    if plan.error == Ok {
      var h := host / PAGE_SIZE;
      TwoEdits(m, Replace(KUSER_CANONICAL, cell.value, h), Share(KUSER_SHARED, KUSER_CANONICAL));
      KuserSteps(m, cell.value, h);
      KuserBinding(m, cell.value, h);
      BoundSameIntervals(m, Run(m, plan.edits), cell.value, h);
      SameIntervalsKeepPartition(m, Run(m, plan.edits));
    }
  }

  lemma BoundSameIntervals(m: Memory, m': Memory, cell: Fresh, h: nat)
    requires KuserBound(m, m', cell, h)
    ensures SameIntervals(m, m')
  {
  }

  lemma TwoEdits(m: Memory, e1: Edit, e2: Edit)
    ensures Run(m, [e1, e2]) == Apply(Apply(m, e1), e2)
  {
    RunSnoc(m, [e1], e2);
    assert [e1] + [e2] == [e1, e2];
    RunSnoc(m, [], e1);
    assert [] + [e1] == [e1];
  }

  /** The second KUSER page still holds the old backing when the first one has let it go. */
  lemma KuserSteps(m: Memory, cell: Fresh, h: nat)
    requires Inv(m) && Enabled(m, Replace(KUSER_CANONICAL, cell, h)) && Backed(m, KUSER_SHARED)
    ensures KUSER_CANONICAL in m.pages
    ensures Apply(Apply(m, Replace(KUSER_CANONICAL, cell, h)), Share(KUSER_SHARED, KUSER_CANONICAL))
         == SharePage(ReplacePage(m, KUSER_CANONICAL, cell, h), KUSER_SHARED, cell.id)
  {
    hide Inv, SharePage, Apply, ReplacePage, Enabled;
    var m1 := Apply(m, Replace(KUSER_CANONICAL, cell, h));
    InvPreserved(m, Replace(KUSER_CANONICAL, cell, h));
    InvCounted(m1);
    ReplacedPage(m, cell, h);
    MappedIsBacked(m1, KUSER_SHARED);
    SharedAs(m1, KUSER_SHARED, KUSER_CANONICAL);
  }

  lemma ReplacedPage(m: Memory, cell: Fresh, h: nat)
    requires Enabled(m, Replace(KUSER_CANONICAL, cell, h)) && Backed(m, KUSER_SHARED)
    ensures KUSER_CANONICAL in m.pages
    ensures var m1 := Apply(m, Replace(KUSER_CANONICAL, cell, h));
            && m1 == ReplacePage(m, KUSER_CANONICAL, cell, h)
            && Backed(m1, KUSER_CANONICAL) && BackingOf(m1, KUSER_CANONICAL) == cell.id
            && KUSER_SHARED in m1.pages && m1.pages[KUSER_SHARED].backing.Some?
  {
  }

  lemma SharedAs(m: Memory, p: nat, source: nat)
    requires Backed(m, p) && Backed(m, source) && p != source
    ensures Apply(m, Share(p, source)) == SharePage(m, p, BackingOf(m, source))
  {
  }
}

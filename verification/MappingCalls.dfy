/**
 The mapping functions of `gem_memory` as plans: an error code and the edits that follow.

 A plan depends on the state before the call and on the allocator's answers, passed in.
 */
module MappingCalls {
  import opened Options
  import opened GuestMemory
  import opened MemoryInvariants

  const MAX_PAGES := 1048576
  const ANYWHERE_BASE := 0x1_0000_0000

  datatype Plan = Plan(error: Error, edits: seq<Edit>)

  predicate RangeOk(a: nat, n: nat) {
    n != 0 && a % PAGE_SIZE == 0 && n % PAGE_SIZE == 0 && a + n <= UINT64_MAX
  }

  predicate InRange(p: nat, first: nat, count: nat) {
    first <= p < first + count
  }

  /** Both allocations made for a call: distinct, not in use, and stamped no later than now. */
  ghost predicate Allocated(m: Memory, cells: seq<Fresh>) {
    && (forall k :: 0 <= k < |cells| ==> IsFresh(m, cells[k]))
    && (forall j, k :: 0 <= j < k < |cells| ==> cells[j].id != cells[k].id)
  }

  // ---- Argument checks ----

  function CheckPages(m: Memory, first: nat, count: nat, committed: bool): (e: Error)
    ensures e in {Ok, NotReserved, NotCommitted}
    ensures e == Ok <==> forall p :: InRange(p, first, count) ==>
                           p in m.pages && (committed ==> m.pages[p].backing.Some?)
    decreases count
  {
    if count == 0 then Ok
    else if first !in m.pages then assert InRange(first, first, count); NotReserved
    else if committed && m.pages[first].backing.None? then assert InRange(first, first, count); NotCommitted
    else
      assert forall p :: InRange(p, first, count) <==> p == first || InRange(p, first + 1, count - 1);
      CheckPages(m, first + 1, count - 1, committed)
  }

  function Check(m: Memory, a: nat, n: nat, committed: bool): Error {
    if !RangeOk(a, n) then InvalidArgument
    else CheckPages(m, a / PAGE_SIZE, n / PAGE_SIZE, committed)
  }

  predicate AnyMapped(m: Memory, first: nat, count: nat) {
    exists p :: first <= p < first + count && p in m.pages
  }

  /** The first unmapped page at or above `b`, unless the search runs out of addresses first. */
  function FirstGap(m: Memory, b: nat, n: nat): nat
    requires n + PAGE_SIZE <= UINT64_MAX
    decreases UINT64_MAX - b
  {
    if b in m.pages && b * PAGE_SIZE <= UINT64_MAX - n - PAGE_SIZE
    then FirstGap(m, b + 1, n) else b
  }

  // ---- Edits of each call ----

  function Burns(count: nat): seq<Edit> { seq(count, _ => Burn) }

  function ReserveEdits(first: nat, count: nat): seq<Edit> {
    seq(count, k requires 0 <= k < count => Reserve(first + k, first, count))
  }

  function AliasEdits(first: nat, source: nat, count: nat, protection: Protection): seq<Edit> {
    seq(count, k requires 0 <= k < count => Alias(first + k, first, count, source + k, protection))
  }

  function ZeroPage(): PageBytes { seq(PAGE_SIZE, _ => 0) }

  /** What backs the k-th committed page: zeroed storage of its own, or the k-th host page. */
  function DataAt(host: Option<nat>, k: nat): Data {
    if host.None? then Internal(ZeroPage()) else External(host.value + k)
  }

  function CommitEdits(first: nat, cells: seq<Fresh>, host: Option<nat>, protection: Protection): seq<Edit> {
    seq(|cells|, k requires 0 <= k < |cells| => Commit(first + k, cells[k], DataAt(host, k), protection))
  }

  function DecommitEdits(first: nat, count: nat): seq<Edit> {
    seq(count, k requires 0 <= k < count => Decommit(first + k))
  }

  function ProtectEdits(first: nat, count: nat, protection: Protection): seq<Edit> {
    seq(count, k requires 0 <= k < count => Protect(first + k, protection))
  }

  function RemoveEdits(pages: seq<nat>): seq<Edit> {
    seq(|pages|, k requires 0 <= k < |pages| => Remove(pages[k]))
  }

  function Ascending(first: nat, count: nat): seq<nat> {
    seq(count, k requires 0 <= k < count => first + k)
  }

  /** Pages `from .. to` become a reservation of their own. */
  function RebaseEdits(from: nat, to: nat): seq<Edit>
    requires from <= to
  {
    seq(to - from, k requires 0 <= k < to - from => Rebase(from + k, from, to - from))
  }

  // ---- Plans ----

  /** The base a reservation is tried at: the caller's, or the first gap above 4 GiB. */
  function ReserveBase(m: Memory, a: nat, n: nat): nat {
    if a == 0 && n / PAGE_SIZE <= MAX_PAGES then FirstGap(m, ANYWHERE_BASE / PAGE_SIZE, n) * PAGE_SIZE else a
  }

  /** `granted` page records can be had before the allocator fails. */
  function ReservePlan(m: Memory, a: nat, n: nat, granted: nat): Plan {
    if n == 0 || n / PAGE_SIZE > MAX_PAGES || n % PAGE_SIZE != 0 then Plan(InvalidArgument, [])
    else
      var b := ReserveBase(m, a, n);
      if !RangeOk(b, n) then Plan(Overflow, [])
      else if AnyMapped(m, b / PAGE_SIZE, n / PAGE_SIZE) then Plan(Conflict, [])
      else if granted < n / PAGE_SIZE then Plan(NoMemory, Burns(granted))
      else Plan(Ok, ReserveEdits(b / PAGE_SIZE, n / PAGE_SIZE))
  }

  function CommitPlan(m: Memory, a: nat, n: nat, protection: Protection, cells: Option<seq<Fresh>>): Plan {
    var e := Check(m, a, n, false);
    if e != Ok then Plan(e, [])
    else if !ProtectionOk(protection) then Plan(InvalidArgument, [])
    else if cells.None? then Plan(NoMemory, [])
    else Plan(Ok, CommitEdits(a / PAGE_SIZE, cells.value, None, protection))
  }

  function DecommitPlan(m: Memory, a: nat, n: nat): Plan {
    var e := Check(m, a, n, false);
    if e != Ok then Plan(e, []) else Plan(Ok, DecommitEdits(a / PAGE_SIZE, n / PAGE_SIZE))
  }

  function ProtectPlan(m: Memory, a: nat, n: nat, protection: Protection): Plan {
    var e := Check(m, a, n, true);
    if e != Ok then Plan(e, [])
    else if !ProtectionOk(protection) then Plan(InvalidArgument, [])
    else Plan(Ok, ProtectEdits(a / PAGE_SIZE, n / PAGE_SIZE, protection))
  }

  function ReleasePlan(m: Memory, a: nat, n: nat): Plan {
    var e := Check(m, a, n, false);
    if e != Ok then Plan(e, [])
    else
      var first, count := a / PAGE_SIZE, n / PAGE_SIZE;
      if first !in m.pages || m.pages[first].base != first || m.pages[first].size != count
      then Plan(InvalidArgument, [])
      else Plan(Ok, RemoveEdits(Ascending(first, count)))
  }

  predicate SameReservation(m: Memory, first: nat, count: nat, base: nat, size: nat) {
    forall p :: first <= p < first + count ==> p in m.pages && m.pages[p].base == base && m.pages[p].size == size
  }

  function UnmapPlan(m: Memory, a: nat, n: nat): Plan {
    var e := Check(m, a, n, false);
    if e != Ok then Plan(e, [])
    else
      var first, count := a / PAGE_SIZE, n / PAGE_SIZE;
      if first !in m.pages then Plan(NotReserved, [])
      else
        var base, size := m.pages[first].base, m.pages[first].size;
        if first < base || first + count > base + size then Plan(InvalidArgument, [])
        else if !SameReservation(m, first, count, base, size) then Plan(InvalidArgument, [])
        else Plan(Ok, RebaseEdits(base, first) + RebaseEdits(first + count, base + size) + RemoveEdits(Ascending(first, count)))
  }

  function AliasPlan(m: Memory, a: nat, s: nat, n: nat, protection: Protection, granted: nat): Plan {
    if !RangeOk(a, n) || !ProtectionOk(protection) then Plan(InvalidArgument, [])
    else
      var e := Check(m, s, n, true);
      if e != Ok then Plan(e, [])
      else if AnyMapped(m, a / PAGE_SIZE, n / PAGE_SIZE) then Plan(Conflict, [])
      else if granted < n / PAGE_SIZE then Plan(NoMemory, Burns(granted))
      else Plan(Ok, AliasEdits(a / PAGE_SIZE, s / PAGE_SIZE, n / PAGE_SIZE, protection))
  }

  /** An identity mapping: reservation, then host-backed commits, undone when a backing is refused. */
  function MapIdentityPlan(
    m: Memory, a: nat, host: nat, n: nat, protection: Protection, granted: nat, cells: seq<Fresh>): Plan
  {
    if host == 0 || a < ANYWHERE_BASE || a != host || !RangeOk(a, n) || !ProtectionOk(protection)
    then Plan(InvalidArgument, [])
    else
      var reserve := ReservePlan(m, a, n, granted);
      var first, count := a / PAGE_SIZE, n / PAGE_SIZE;
      if reserve.error != Ok then reserve
      else if |cells| < count
      then Plan(NoMemory, reserve.edits + CommitEdits(first, cells, Some(first), protection) + RemoveEdits(Ascending(first, count)))
      else Plan(Ok, reserve.edits + CommitEdits(first, cells[..count], Some(first), protection))
  }

  /** Whether a page that already has a backing has exactly this host page as its backing. */
  predicate HoldsHost(m: Memory, p: nat, host: nat) {
    Backed(m, p) && m.backings[BackingOf(m, p)].data == External(host)
  }

  /** Scan order matters: a foreign backing and a refused allocation are reported as they come. */
  function CommitHostCheck(m: Memory, first: nat, host: nat, count: nat, granted: nat): Error
    requires forall p :: InRange(p, first, count) ==> p in m.pages
    decreases count
  {
    if count == 0 then Ok
    else
      assert InRange(first, first, count);
      assert forall p :: InRange(p, first + 1, count - 1) ==> InRange(p, first, count);
      if m.pages[first].backing.Some? then
        if !HoldsHost(m, first, host) then Conflict
        else CommitHostCheck(m, first + 1, host + 1, count - 1, granted)
      else if granted == 0 then NoMemory
      else CommitHostCheck(m, first + 1, host + 1, count - 1, granted - 1)
  }

  function CommitExternalPlan(
    m: Memory, a: nat, host: nat, n: nat, protection: Protection, requireIdentity: bool,
    granted: Option<nat>, cells: seq<Fresh>): Plan
  {
    if host == 0 || host % PAGE_SIZE != 0 || (requireIdentity && (a < ANYWHERE_BASE || a != host))
       || !RangeOk(a, n) || !ProtectionOk(protection)
    then Plan(InvalidArgument, [])
    else
      var e := Check(m, a, n, false);
      if e != Ok then Plan(e, [])
      else if granted.None? then Plan(NoMemory, [])
      else
        var e := CommitHostCheck(m, a / PAGE_SIZE, host / PAGE_SIZE, n / PAGE_SIZE, granted.value);
        if e != Ok then Plan(e, [])
        else Plan(Ok, CommitEdits(a / PAGE_SIZE, cells, Some(host / PAGE_SIZE), protection))
  }

  const KUSER_SHARED := 0x7ffe0000 / PAGE_SIZE
  const KUSER_CANONICAL := 0x1007ffe0000 / PAGE_SIZE

  function BindKuserPlan(m: Memory, host: nat, cell: Option<Fresh>): Plan {
    if host == 0 || host % PAGE_SIZE != 0 then Plan(InvalidArgument, [])
    else if !Backed(m, KUSER_CANONICAL) || !Backed(m, KUSER_SHARED)
            || BackingOf(m, KUSER_CANONICAL) != BackingOf(m, KUSER_SHARED)
    then Plan(Conflict, [])
    else if cell.None? then Plan(NoMemory, [])
    else Plan(Ok, [Replace(KUSER_CANONICAL, cell.value, host / PAGE_SIZE), Share(KUSER_SHARED, KUSER_CANONICAL)])
  }
}

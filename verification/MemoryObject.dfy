/**
 The memory object itself: its page table, backings, counter and transactions, updated in place by the
 loops of its functions.  Each function is proved to run the edits of its plan.
 */
module MemoryObject {
  import opened Options
  import opened GuestMemory
  import opened MemoryInvariants
  import opened MappingCalls
  import opened MappingEffects
  import opened MappingTheorems
  import opened OptimisticValidation
  import opened PagedAccess
  import opened TransactionCalls
  import opened CommitPages
  import opened PendingCopies
  import opened SplitCommit
  import opened PageTable

  /** The check of a range begins with its first page. */
  lemma CheckPagesFrom(m: Memory, first: nat, count: nat, committed: bool)
    ensures CheckPages(m, first, count, committed)
         == if count == 0 then Ok
            else if first !in m.pages then NotReserved
            else if committed && m.pages[first].backing.None? then NotCommitted
            else CheckPages(m, first + 1, count - 1, committed)
  {
  }

  /** The pages of a range that need storage can all be given some. */
  ghost predicate Grantable(m: Memory, first: nat, grants: seq<bool>) {
    forall k :: 0 <= k < |grants| && first + k in m.pages && m.pages[first + k].backing.None? ==> grants[k]
  }

  class GemMemory {
    const table: Table
    var backings: map<BackingId, Backing>
    var host: map<nat, PageBytes>
    var nextGeneration: nat
    var transactions: map<TransactionId, Transaction>

    constructor (hash: nat -> nat, size: nat)
      requires forall p :: hash(p) < size
      ensures Valid() && State() == Memory(map[], map[], map[], 0, map[])
      ensures fresh(table) && fresh(table.buckets) && table.Repr == {}
    {
      table := new Table(hash, size);
      backings, host, nextGeneration, transactions := map[], map[], 0, map[];
    }

    ghost predicate Valid()
      reads this, table, table.buckets, table.Repr`next, table.Repr`hashNext
    {
      table.Valid()
    }

    /** The object as a value. */
    ghost function State(): Memory
      reads this, table`nodes, table.nodes.Values`value
    {
      Memory(table.Contents(), backings, host, nextGeneration, transactions)
    }

    /** A record that the table holds for its page number. */
    ghost predicate Holds(n: PageNode)
      reads table`nodes
    {
      n.number in table.nodes && table.nodes[n.number] == n
    }

    // ---- One page ----

    method TouchPage(n: PageNode)
      requires Valid() && Holds(n)
      modifies this`nextGeneration, n`value
      ensures Valid() && State() == GuestMemory.TouchPage(old(State()), n.number)
    {
      hide Table.Valid, Listed;
      nextGeneration := nextGeneration + 1;
      table.Put(n, n.value.(generation := nextGeneration));
    }

    method TouchBacking(b: BackingId)
      requires b in backings
      modifies this`nextGeneration, this`backings
      ensures State() == GuestMemory.TouchBacking(old(State()), b)
    {
      nextGeneration := nextGeneration + 1;
      backings := backings[b := backings[b].(generation := nextGeneration)];
    }

    /** `drop`: one reference fewer; the backing goes with its last one. */
    method DropBacking(b: Option<BackingId>)
      modifies this`backings
      ensures backings == DropOption(old(backings), b)
    {
      if b.Some? && b.value in backings {
        if backings[b.value].refs <= 1 {
          backings := backings - {b.value};
        } else {
          backings := backings[b.value := backings[b.value].(refs := backings[b.value].refs - 1)];
        }
      }
    }

    // ---- Arguments ----

    method CheckRange(first: nat, count: nat, committed: bool) returns (e: Error)
      requires Valid()
      ensures e == CheckPages(State(), first, count, committed)
    {
      hide CheckPages, Table.Valid;
      ghost var m := State();
      for k := 0 to count
        invariant CheckPages(m, first, count, committed) == CheckPages(m, first + k, count - k, committed)
      {
        CheckPagesFrom(m, first + k, count - k, committed);
        var page := table.At(first + k);
        if page == null {
          return NotReserved;
        }
        if committed && page.value.backing.None? {
          return NotCommitted;
        }
      }
      CheckPagesFrom(m, first + count, 0, committed);
      e := Ok;
    }

    /** `check`. */
    method Check(a: nat, n: nat, committed: bool) returns (e: Error)
      requires Valid()
      ensures e == MappingCalls.Check(State(), a, n, committed)
    {
      if n == 0 || a % PAGE_SIZE != 0 || n % PAGE_SIZE != 0 || a > UINT64_MAX || n > UINT64_MAX - a {
        return InvalidArgument;
      }
      e := CheckRange(a / PAGE_SIZE, n / PAGE_SIZE, committed);
    }

    // ---- Commit ----

    /** The page's record with other storage. */
    method SetBacking(n: PageNode, b: Option<BackingId>)
      requires Valid() && Holds(n)
      modifies n`value
      ensures Valid() && Holds(n)
      ensures n.value == old(n.value).(backing := b)
      ensures State() == old(State()).(pages := old(State()).pages[n.number := n.value])
    {
      hide Table.Valid;
      table.Put(n, n.value.(backing := b));
    }

    method SetProtection(n: PageNode, protection: Protection)
      requires Valid() && Holds(n)
      modifies n`value
      ensures Valid() && Holds(n)
      ensures n.value == old(n.value).(protection := protection)
      ensures State() == old(State()).(pages := old(State()).pages[n.number := n.value])
    {
      hide Table.Valid;
      table.Put(n, n.value.(protection := protection));
    }

    /** What the table says of a page is what its record holds. */
    lemma HeldValue(n: PageNode)
      requires Holds(n)
      ensures n.number in State().pages && State().pages[n.number] == n.value
    {
    }

    /** Storage for a page that has none, its protection, and its stamp. */
    method CommitPage(n: PageNode, cell: Fresh, data: Data, protection: Protection)
      requires Valid() && Holds(n) && Enabled(State(), Edit.Commit(n.number, cell, data, protection))
      modifies this`nextGeneration, this`backings, n`value
      ensures Valid() && State() == Apply(old(State()), Edit.Commit(n.number, cell, data, protection))
    {
      hide Apply, Enabled, Table.Valid, Table.Contents;
      ghost var m := State();
      HeldValue(n);
      CommitPageResult(m, n.number, cell, data, protection);
      if n.value.backing.None? {
        backings := backings[cell.id := Backing(data, 1, cell.generation)];
        SetBacking(n, Some(cell.id));
      }
      SetProtection(n, protection);
      TouchPage(n);
    }
  
    lemma HeldIsOwn(n: PageNode)
      requires Valid() && Holds(n)
      ensures n in table.Repr
    {
    }

    lemma AllHeld(first: nat, count: nat)
      requires AllMapped(State(), first, count)
      ensures forall p: nat :: InRange(p, first, count) ==> p in table.nodes
    {
    }

    /** Looks up a page that is known to be in the table. */
    method Mapped(p: nat) returns (n: PageNode)
      requires Valid() && (p in table.nodes || p in State().pages)
      ensures n.number == p && Holds(n) && n in table.Repr
      ensures p in State().pages && State().pages[p] == n.value
    {
      n := table.At(p);
    }

    method CommitLoop(first: nat, cells: seq<Fresh>, protection: Protection)
      requires Valid() && AllMapped(State(), first, |cells|) && Allocated(State(), cells)
      modifies this`nextGeneration, this`backings, table.Repr`value
      ensures Valid() && State() == Run(old(State()), CommitEdits(first, cells, None, protection))
    {
      hide Apply, Run, Table.Valid, Table.Contents, CommitEffect, Allocated;
      ghost var m, edits := State(), CommitEdits(first, cells, None, protection);
      AllHeld(first, |cells|);
      NoEdits(m);
      assert edits[..0] == [];
      for k := 0 to |cells|
        invariant Valid() && table.nodes == old(table.nodes) && State() == Run(m, edits[..k])
      {
        assert InRange(first + k, first, |cells|);
        CommitRun(m, first, cells, None, protection, k);
        CommitStep(m, State(), first, cells, None, protection, k);
        RunPrefix(m, edits, k + 1);
        var page := Mapped(first + k);
        CommitPage(page, cells[k], DataAt(None, k), protection);
      }
      assert edits[..|cells|] == edits;
    }

    /**
     `commit`.  `room` and `grants` are the allocator's answers, `cells` the backings it gives.  Nothing is
     changed before every backing that is needed has been obtained.
     */
    method Commit(a: nat, n: nat, protection: Protection, room: bool, grants: seq<bool>, cells: seq<Fresh>) returns (e: Error)
      requires Valid() && Allocated(State(), cells) && |grants| == |cells| == n / PAGE_SIZE
      modifies this`nextGeneration, this`backings, table.Repr`value
      ensures Valid()
      ensures var plan := CommitPlan(old(State()), a, n, protection,
                            if room && Grantable(old(State()), a / PAGE_SIZE, grants) then Some(cells) else None);
              e == plan.error && State() == Run(old(State()), plan.edits)
    {
      hide Run, Table.Valid, Table.Contents, CheckPages, CommitEdits, Allocated;
      ghost var m := State();
      NoEdits(m);
      e := Check(a, n, false);
      if e != Ok {
        return;
      }
      if !ProtectionOk(protection) {
        return InvalidArgument;
      }
      if !room {
        return NoMemory;
      }
      var first := a / PAGE_SIZE;
      AllHeld(first, |cells|);
      var k := 0;
      while k < |cells|
        invariant k <= |cells| && Valid() && State() == m
        invariant forall j :: 0 <= j < k && m.pages[first + j].backing.None? ==> grants[j]
      {
        assert InRange(first + k, first, |cells|);
        var page := Mapped(first + k);
        if page.value.backing.None? && !grants[k] {
          return NoMemory;
        }
        k := k + 1;
      }
      CommitLoop(first, cells, protection);
    }

    // ---- Decommit ----

    method DecommitPage(n: PageNode)
      requires Valid() && Holds(n)
      modifies this`nextGeneration, this`backings, n`value
      ensures Valid() && State() == GuestMemory.DecommitPage(old(State()), n.number)
    {
      hide Table.Valid, Table.Contents, DropOption;
      HeldValue(n);
      DropBacking(n.value.backing);
      SetBacking(n, None);
      SetProtection(n, Protection(NO_ACCESS, false));
      TouchPage(n);
    }

    method Decommit(a: nat, n: nat) returns (e: Error)
      requires Valid()
      modifies this`nextGeneration, this`backings, table.Repr`value
      ensures Valid()
      ensures var plan := DecommitPlan(old(State()), a, n);
              e == plan.error && State() == Run(old(State()), plan.edits)
    {
      hide Run, Table.Valid, Table.Contents, CheckPages, GuestMemory.DecommitPage;
      ghost var m := State();
      NoEdits(m);
      e := Check(a, n, false);
      if e != Ok {
        return;
      }
      var first, count := a / PAGE_SIZE, n / PAGE_SIZE;
      ghost var edits := DecommitEdits(first, count);
      AllHeld(first, count);
      assert edits[..0] == [];
      for k := 0 to count
        invariant Valid() && table.nodes == old(table.nodes) && State() == Run(m, edits[..k])
      {
        assert InRange(first + k, first, count);
        RunPrefix(m, edits, k + 1);
        var page := Mapped(first + k);
        DecommitPage(page);
      }
      assert edits[..count] == edits;
    }

    // ---- Protect ----

    lemma ProtectDetermined(m: Memory, a: Memory, b: Memory, first: nat, count: nat, protection: Protection)
      requires ProtectEffect(m, a, first, count, protection) && ProtectEffect(m, b, first, count, protection)
      ensures a == b
    {
    }

    method SetProtections(first: nat, count: nat, protection: Protection)
      requires Valid() && AllMapped(State(), first, count)
      modifies table.Repr`value
      ensures Valid()
      ensures ProtectionsSet(old(State()), State(), first, count, protection)
    {
      hide Table.Valid, Table.Contents;
      ghost var m := State();
      AllHeld(first, count);
      for k := 0 to count
        invariant Valid() && table.nodes == old(table.nodes) && ProtectionsSet(m, State(), first, k, protection)
      {
        assert InRange(first + k, first, count);
        var page := Mapped(first + k);
        SetProtection(page, protection);
      }
    }

    method TouchPages(first: nat, count: nat)
      requires Valid() && AllMapped(State(), first, count)
      modifies this`nextGeneration, table.Repr`value
      ensures Valid() && PagesTouched(old(State()), State(), first, count)
    {
      hide Table.Valid, Table.Contents;
      ghost var m := State();
      AllHeld(first, count);
      for k := 0 to count
        invariant Valid() && table.nodes == old(table.nodes) && PagesTouched(m, State(), first, k)
      {
        assert InRange(first + k, first, count);
        var page := Mapped(first + k);
        TouchPage(page);
      }
    }

    /** All protections first, then all stamps; `prior` is what the first page had. */
    method Protect(a: nat, n: nat, protection: Protection) returns (e: Error, prior: Protection)
      requires Valid()
      modifies this`nextGeneration, table.Repr`value
      ensures Valid()
      ensures var plan := ProtectPlan(old(State()), a, n, protection);
              e == plan.error && State() == Run(old(State()), plan.edits)
      ensures e == Ok ==> a / PAGE_SIZE in old(State()).pages && prior == old(State()).pages[a / PAGE_SIZE].protection
    {
      hide Run, Table.Valid, Table.Contents, CheckPages, ProtectEdits, PagesTouched, ProtectionsSet, ProtectEffect;
      ghost var m := State();
      NoEdits(m);
      prior := protection;
      e := Check(a, n, true);
      if e != Ok {
        return;
      }
      if !ProtectionOk(protection) {
        return InvalidArgument, prior;
      }
      var first, count := a / PAGE_SIZE, n / PAGE_SIZE;
      assert AllMapped(m, first, count);
      AllHeld(first, count);
      assert InRange(first, first, count);
      var page := Mapped(first);
      prior := page.value.protection;
      SetProtections(first, count, protection);
      ghost var s := State();
      StillMapped(m, s, first, count, protection);
      TouchPages(first, count);
      BothLoops(m, s, State(), first, count, protection);
      ProtectAll(m, first, count, protection);
      ProtectDetermined(m, State(), Run(m, ProtectEdits(first, count, protection)), first, count, protection);
    }

    // ---- Reserve ----

    /** The search for a free page from 4 GiB up; it stops short when addresses run out. */
    method FindGap(n: nat) returns (b: nat)
      requires Valid() && n + PAGE_SIZE <= UINT64_MAX
      ensures b == FirstGap(State(), ANYWHERE_BASE / PAGE_SIZE, n)
    {
      hide Table.Valid, Table.Contents;
      b := ANYWHERE_BASE / PAGE_SIZE;
      while true
        invariant FirstGap(State(), b, n) == FirstGap(State(), ANYWHERE_BASE / PAGE_SIZE, n)
        decreases UINT64_MAX - b
      {
        var page := table.At(b);
        if page == null || b * PAGE_SIZE > UINT64_MAX - n - PAGE_SIZE {
          return;
        }
        b := b + 1;
      }
    }

    method IsUnmapped(first: nat, count: nat) returns (free: bool)
      requires Valid()
      ensures free <==> !AnyMapped(State(), first, count)
    {
      hide Table.Valid, Table.Contents;
      for k := 0 to count
        invariant forall p: nat :: InRange(p, first, k) ==> p !in State().pages
      {
        var page := table.At(first + k);
        if page != null {
          assert first + k in State().pages;
          return false;
        }
      }
      free := true;
      forall p: nat | first <= p < first + count ensures p !in State().pages {
        assert InRange(p, first, count);
      }
    }

    /** Records for a range, each with its stamp, not yet in the table: the last page's comes first. */
    method AllocatePages(first: nat, count: nat, granted: nat) returns (records: seq<PageNode>)
      requires Valid()
      modifies this`nextGeneration
      ensures |records| == (if granted < count then granted else count)
      ensures nextGeneration == old(nextGeneration) + |records|
      ensures forall j :: 0 <= j < |records| ==> fresh(records[j]) && records[j].number == first + (|records| - 1 - j)
      ensures forall j :: 0 <= j < |records| ==>
                records[j].value == Page(first, count, None, Protection(0, false), old(nextGeneration) + (|records| - j))
    {
      hide Table.Valid;
      records := [];
      for k := 0 to count
        invariant |records| == k <= granted && nextGeneration == old(nextGeneration) + k
        invariant forall j :: 0 <= j < k ==> fresh(records[j]) && records[j].number == first + (k - 1 - j)
        invariant forall j :: 0 <= j < k ==>
                    records[j].value == Page(first, count, None, Protection(0, false), old(nextGeneration) + (k - j))
      {
        if k == granted {
          return;
        }
        nextGeneration := nextGeneration + 1;
        var page := new PageNode(first + k, Page(first, count, None, Protection(0, false), nextGeneration));
        records := [page] + records;
      }
    }

    /** The new records into the table, one by one. */
    method InsertAll(records: seq<PageNode>)
      requires Valid()
      requires forall j :: 0 <= j < |records| ==> records[j] !in table.Repr && records[j].number !in table.nodes
      requires forall i, j :: 0 <= i < j < |records| ==> records[i].number != records[j].number
      modifies table, table.buckets, records`next, records`hashNext
      ensures Valid() && table.buckets == old(table.buckets)
      ensures table.Repr == old(table.Repr) + (set n | n in records)
      ensures State() == old(State()).(pages := WithRecords(old(State()).pages, records))
    {
      hide Table.Valid, Table.Contents, WithRecords;
      ghost var m := State();
      WithNoRecords(m.pages);
      assert records[..0] == [];
      for k := 0 to |records|
        invariant Valid() && table.buckets == old(table.buckets)
        invariant table.Repr == old(table.Repr) + (set n | n in records[..k])
        invariant State() == m.(pages := WithRecords(m.pages, records[..k]))
        invariant forall j :: k <= j < |records| ==> records[j] !in table.Repr && records[j].number !in table.nodes
      {
        assert records[..k + 1] == records[..k] + [records[k]];
        table.Add(records[k]);
        WithOneRecord(m.pages, records[..k], records[k]);
      }
      assert records[..|records|] == records;
    }

    /** The records of a free range, all of them or none. */
    method ReserveRange(first: nat, count: nat, granted: nat) returns (e: Error)
      requires Valid() && !AnyMapped(State(), first, count)
      modifies this`nextGeneration, table, table.buckets
      ensures Valid() && table.buckets == old(table.buckets) && fresh(table.Repr - old(table.Repr))
      ensures e == (if granted < count then NoMemory else Ok)
      ensures State() == Run(old(State()), if granted < count then Burns(granted) else ReserveEdits(first, count))
    {
      hide Run, Table.Valid, Table.Contents, ReserveEdits, Burns;
      ghost var m := State();
      var records := AllocatePages(first, count, granted);
      if |records| < count {
        BurnsAdd(m, granted);
        return NoMemory;
      }
      e := Ok;
      RecordsUnmapped(m, first, count, records);
      InsertAll(records);
      ReserveAll(m, first, count);
      ReservedRecords(m, Run(m, ReserveEdits(first, count)), records, first, count);
    }

    /**
     `reserve`.  `granted` page records can be had.  When one cannot, nothing is in the table yet, and only
     the stamps of those that could are used up.
     */
    method Reserve(a: nat, n: nat, granted: nat) returns (e: Error, base: nat)
      requires Valid()
      modifies this`nextGeneration, table, table.buckets
      ensures Valid() && table.buckets == old(table.buckets) && fresh(table.Repr - old(table.Repr))
      ensures var plan := ReservePlan(old(State()), a, n, granted);
              e == plan.error && State() == Run(old(State()), plan.edits)
      ensures e == Ok ==> base == ReserveBase(old(State()), a, n) && TriedAt(old(State()), a, n, base)
    {
      hide Run, Table.Valid, Table.Contents, ReserveEdits, Burns, FirstGap, AnyMapped, TriedAt;
      NoEdits(State());
      if n / 4096 <= 0x10_0000 {
        BaseIsTried(State(), a, n);
      }
      base := a;
      if n == 0 || n / PAGE_SIZE > MAX_PAGES || n % PAGE_SIZE != 0 {
        return InvalidArgument, base;
      }
      if base == 0 {
        var b := FindGap(n);
        base := b * PAGE_SIZE;
      }
      if base % PAGE_SIZE != 0 || base > UINT64_MAX || n > UINT64_MAX - base {
        return Overflow, base;
      }
      var free := IsUnmapped(base / PAGE_SIZE, n / PAGE_SIZE);
      if !free {
        return Conflict, base;
      }
      e := ReserveRange(base / PAGE_SIZE, n / PAGE_SIZE, granted);
    }

    /** New records are not in the table, and no two are for one page. */
    lemma RecordsUnmapped(m: Memory, first: nat, count: nat, records: seq<PageNode>)
      requires m.pages == State().pages && !AnyMapped(m, first, count) && |records| == count
      requires forall j :: 0 <= j < |records| ==> records[j].number == first + (|records| - 1 - j)
      ensures forall j :: 0 <= j < |records| ==> records[j].number !in table.nodes
      ensures forall i, j :: 0 <= i < j < |records| ==> records[i].number != records[j].number
      ensures forall p: nat :: InRange(p, first, count) ==> p !in m.pages
    {
      assert table.Contents().Keys == table.nodes.Keys;
    }

    // ---- Release and unmap ----

    method DropAll(records: seq<PageNode>)
      modifies this`backings
      ensures State() == old(State()).(backings := AllDropped(old(State()).backings, records))
    {
      hide Table.Contents;
      ghost var before := backings;
      for k := 0 to |records|
        invariant backings == AllDropped(before, records[..k])
      {
        assert records[..k + 1] == records[..k] + [records[k]];
        assert records[..k + 1][..k] == records[..k];
        DropBacking(records[k].value.backing);
      }
      assert records[..|records|] == records;
    }

    /** The records of a range out of the table. */
    method TakeOut(first: nat, count: nat) returns (removed: seq<PageNode>)
      requires Valid()
      modifies table`pages, table`nodes, table`list, table`chains, table.buckets, table.Repr`next, table.Repr`hashNext
      ensures Valid() && removed == Inside(old(table.list), first, count)
      ensures table.nodes == map p | p in old(table.nodes) && !(first <= p < first + count) :: old(table.nodes)[p]
      ensures State() == old(State()).(pages := State().pages)
      ensures State().pages == map p | p in old(State()).pages && !(first <= p < first + count) :: old(State()).pages[p]
    {
      hide Table.Valid, Outside, Inside;
      removed := table.RemovePages(first, count);
    }

    /**
     `remove_pages`, with the backings dropped after all records are out of the table instead of one by one.
     The list decides the order of removal, and the order does not matter.
     */
    method RemovePages(first: nat, count: nat)
      requires Valid() && Counted(State()) && AllMapped(State(), first, count)
      modifies this`backings, table`pages, table`nodes, table`list, table`chains, table.buckets, table.Repr`next, table.Repr`hashNext
      ensures Valid() && table.nodes == map p | p in old(table.nodes) && !(first <= p < first + count) :: old(table.nodes)[p]
      ensures State() == Run(old(State()), RemoveEdits(Ascending(first, count)))
    {
      hide Run, Apply, Counted, RemoveEdits, Outside, Inside, AllDropped, Table.Valid, Table.Contents, SetOf, DistinctMapped,
           Ascending;
      ghost var m := State();
      RemovedAre(first, count);
      ghost var numbers := Numbers(Inside(table.list, first, count));
      var removed := TakeOut(first, count);
      DropAll(removed);
      RemovedState(m, removed);
      RestIsDifference(m.pages, State().pages, first, count, SetOf(numbers));
      RemovalOrderIrrelevant(m, numbers, Ascending(first, count));
    }

    /** The records taken off the list are those of the range, each once. */
    lemma RemovedAre(first: nat, count: nat)
      requires Valid() && AllMapped(State(), first, count)
      ensures var inside := Inside(table.list, first, count);
              && DistinctMapped(State(), Numbers(inside)) && DistinctMapped(State(), Ascending(first, count))
              && SetOf(Numbers(inside)) == SetOf(Ascending(first, count))
              && (forall p: nat :: p in SetOf(Numbers(inside)) <==> InRange(p, first, count))
              && (forall j :: 0 <= j < |inside| ==>
                    inside[j].number in State().pages && State().pages[inside[j].number] == inside[j].value)
    {
      hide Table.Buckets, Agree;
      var inside := Inside(table.list, first, count);
      InsideMembers(table.list, first, count);
      forall j | 0 <= j < |inside| ensures Holds(inside[j]) {
        InsideAt(table.list, first, count, j);
        var i :| 0 <= i < |table.list| && table.list[i] == inside[j];
        assert table.list[i].number in table.nodes;
      }
      forall p: nat ensures p in SetOf(Numbers(inside)) <==> InRange(p, first, count) {
        if InRange(p, first, count) {
          assert table.nodes[p] in inside;
          var j :| 0 <= j < |inside| && inside[j] == table.nodes[p];
          assert Numbers(inside)[j] == p;
        }
      }
      AscendingGrows(first, count);
      forall j | 0 <= j < count ensures Ascending(first, count)[j] in State().pages {
        assert InRange(first + j, first, count);
      }
    }

    /** `release`: only a whole reservation can be given back. */
    method Release(a: nat, n: nat) returns (e: Error)
      requires Valid() && Counted(State())
      modifies this`backings, table`pages, table`nodes, table`list, table`chains, table.buckets, table.Repr`next, table.Repr`hashNext
      ensures Valid()
      ensures var plan := ReleasePlan(old(State()), a, n);
              e == plan.error && State() == Run(old(State()), plan.edits)
    {
      hide Run, Table.Valid, Table.Contents, CheckPages, RemoveEdits, Ascending, Counted;
      NoEdits(State());
      e := Check(a, n, false);
      if e != Ok {
        return;
      }
      var first, count := a / PAGE_SIZE, n / PAGE_SIZE;
      AllHeld(first, count);
      assert InRange(first, first, count);
      var page := Mapped(first);
      if first != page.value.base || count != page.value.size {
        return InvalidArgument;
      }
      RemovePages(first, count);
    }

    method RebasePage(n: PageNode, base: nat, size: nat)
      requires Valid() && Holds(n)
      modifies n`value
      ensures Valid() && State() == Apply(old(State()), Rebase(n.number, base, size))
    {
      hide Table.Valid, Table.Contents;
      HeldValue(n);
      table.Put(n, n.value.(base := base, size := size));
    }

    /** The pages `from .. to` become a reservation of their own. */
    method RebaseRange(from: nat, to: nat)
      requires Valid() && from <= to && AllMapped(State(), from, to - from)
      modifies table.Repr`value
      ensures Valid() && State() == Run(old(State()), RebaseEdits(from, to))
    {
      hide Run, Apply, Table.Valid, Table.Contents;
      ghost var m, edits := State(), RebaseEdits(from, to);
      AllHeld(from, to - from);
      NoEdits(m);
      assert edits[..0] == [];
      for k := 0 to to - from
        invariant Valid() && table.nodes == old(table.nodes) && State() == Run(m, edits[..k])
      {
        assert InRange(from + k, from, to - from);
        RunPrefix(m, edits, k + 1);
        var page := Mapped(from + k);
        RebasePage(page, from, to - from);
      }
      assert edits[..to - from] == edits;
    }

    /** Whether every page of a range belongs to one reservation. */
    method WithinReservation(first: nat, count: nat, base: nat, size: nat) returns (within: bool)
      requires Valid() && AllMapped(State(), first, count)
      ensures within <==> SameReservation(State(), first, count, base, size)
    {
      hide Table.Valid, Table.Contents;
      AllHeld(first, count);
      for k := 0 to count
        invariant SameReservation(State(), first, k, base, size)
      {
        assert InRange(first + k, first, count);
        var page := Mapped(first + k);
        if page.value.base != base || page.value.size != size {
          return false;
        }
      }
      within := true;
    }

    /**
     `unmap`.  The sides of the reservation are looked up without a check; they are there because reservations
     are fully mapped.
     */
    method Unmap(a: nat, n: nat) returns (e: Error)
      requires Valid() && Inv(State()) && Partitioned(State())
      modifies this`backings, table`pages, table`nodes, table`list, table`chains, table.buckets, table.Repr
      ensures Valid()
      ensures var plan := UnmapPlan(old(State()), a, n);
              e == plan.error && State() == Run(old(State()), plan.edits)
    {
      hide Run, Table.Valid, Table.Contents, CheckPages, RemoveEdits, RebaseEdits, Ascending, Counted, Stamped, HostsKnown,
           Partitioned;
      ghost var m := State();
      NoEdits(m);
      e := Check(a, n, false);
      if e != Ok {
        return;
      }
      var first, count := a / PAGE_SIZE, n / PAGE_SIZE;
      AllHeld(first, count);
      assert InRange(first, first, count);
      var page := Mapped(first);
      var base, size := page.value.base, page.value.size;
      if first < base || first + count > base + size {
        return InvalidArgument;
      }
      var within := WithinReservation(first, count, base, size);
      if !within {
        return InvalidArgument;
      }
      SidesMapped(m, first, count);
      assert AllMapped(m, base, first - base) by {
        SomeMapped(m, base, size, base, first - base);
      }
      RebaseAll(m, base, first);
      RebaseRange(base, first);
      StillThere(m, State(), base, first, base, size);
      SomeMapped(State(), base, size, first + count, base + size - (first + count));
      RebaseAll(State(), first + count, base + size);
      RebaseRange(first + count, base + size);
      StillThere(m, State(), first + count, base + size, base, size);
      SomeMapped(State(), base, size, first, count);
      InvOverRun(m, RebaseEdits(base, first));
      InvOverRun(Run(m, RebaseEdits(base, first)), RebaseEdits(first + count, base + size));
      RemovePages(first, count);
      ThreeRuns(m, RebaseEdits(base, first), RebaseEdits(first + count, base + size), RemoveEdits(Ascending(first, count)));
    }

    // ---- Alias ----

    /** One more reference to storage another page has, and a record for the alias. */
    method AllocateAlias(p: nat, first: nat, count: nat, source: nat, protection: Protection) returns (record: PageNode)
      requires Valid() && Backed(State(), source)
      modifies this`nextGeneration, this`backings
      ensures fresh(record) && record.number == p
      ensures var s := AliasPage(old(State()), p, first, count, BackingOf(old(State()), source), protection);
              State() == s.(pages := old(State()).pages) && record.value == s.pages[p]
    {
      hide Table.Valid, Table.Contents;
      var page := table.At(source);
      var b := page.value.backing.value;
      backings := backings[b := backings[b].(refs := backings[b].refs + 1)];
      nextGeneration := nextGeneration + 1;
      record := new PageNode(p, Page(first, count, Some(b), protection, nextGeneration));
    }

    /** Aliases of a range, not yet in the table: all, or as many as the allocator grants. */
    method AllocateAliases(first: nat, source: nat, count: nat, protection: Protection, granted: nat) returns (records: seq<PageNode>)
      requires Valid() && AllBacked(State(), source, count) && !AnyMapped(State(), first, count)
      modifies this`nextGeneration, this`backings
      ensures |records| == (if granted < count then granted else count)
      ensures forall j :: 0 <= j < |records| ==> fresh(records[j])
      ensures var s := Run(old(State()), AliasEdits(first, source, count, protection)[..|records|]);
              State() == s.(pages := old(State()).pages) && RecordsOf(records, first, |records|, s.pages)
    {
      hide Run, Apply, Table.Valid, Table.Contents, AliasPage, AliasEffect;
      ghost var m, edits := State(), AliasEdits(first, source, count, protection);
      assert forall p: nat :: InRange(p, first, count) ==> p !in m.pages;
      NoEdits(m);
      assert edits[..0] == [];
      records := [];
      for k := 0 to count
        invariant |records| == k <= granted && forall j :: 0 <= j < k ==> fresh(records[j])
        invariant State() == Run(m, edits[..k]).(pages := m.pages)
        invariant RecordsOf(records, first, k, Run(m, edits[..k]).pages)
      {
        if k == granted {
          return;
        }
        assert InRange(source + k, source, count);
        AliasRun(m, first, source, count, protection, k);
        RunPrefix(m, edits, k + 1);
        OneMoreAlias(m, Run(m, edits[..k]), first, source, count, protection, k);
        var record := AllocateAlias(first + k, first, count, source + k, protection);
        RecordsGrow(record, records, first, k, Run(m, edits[..k]).pages, Run(m, edits[..k + 1]).pages);
        records := [record] + records;
      }
    }

    /** Undone in the opposite order, each alias gives its reference back. */
    method DropAliases(ghost m: Memory, records: seq<PageNode>, ghost edits: seq<Edit>, first: nat, source: nat, count: nat,
                       protection: Protection)
      requires Inv(m) && AllBacked(m, source, count) && |records| <= count
      requires forall p: nat :: InRange(p, first, count) ==> p !in m.pages
      requires edits == AliasEdits(first, source, count, protection)
      requires backings == Run(m, edits[..|records|]).backings
      requires RecordsOf(records, first, |records|, Run(m, edits[..|records|]).pages)
      modifies this`backings
      ensures State() == old(State()).(backings := m.backings)
    {
      hide Run, Apply, Counted, Stamped, HostsKnown, AliasEffect;
      var n := |records|;
      AliasRun(m, first, source, count, protection, n);
      for k := 0 to n
        invariant backings == Run(m, edits[..n - k]).backings
      {
        AliasRun(m, first, source, count, protection, n - k - 1);
        InvOverRun(m, edits[..n - k - 1]);
        RunPrefix(m, edits, n - k);
        assert InRange(source + (n - k - 1), source, count);
        AliasUndone(m, Run(m, edits[..n - k - 1]), first, source, count, protection, n - k - 1);
        AliasedPage(m, Run(m, edits[..n]), first, source, count, protection, n - k - 1, n);
        DropBacking(records[k].value.backing);
      }
      assert edits[..0] == [];
      NoEdits(m);
    }

    /** `alias`.  `granted` page records can be had. */
    method MakeAlias(a: nat, source: nat, n: nat, protection: Protection, granted: nat) returns (e: Error)
      requires Valid() && Inv(State())
      modifies this`nextGeneration, this`backings, table, table.buckets
      ensures Valid()
      ensures var plan := AliasPlan(old(State()), a, source, n, protection, granted);
              e == plan.error && State() == Run(old(State()), plan.edits)
    {
      hide Run, Table.Valid, Table.Contents, AliasEdits, Burns, AnyMapped, CheckPages, Counted, Stamped;
      ghost var m := State();
      NoEdits(m);
      if n == 0 || a % PAGE_SIZE != 0 || n % PAGE_SIZE != 0 || a > UINT64_MAX || n > UINT64_MAX - a || !ProtectionOk(protection) {
        return InvalidArgument;
      }
      e := Check(source, n, true);
      if e != Ok {
        return;
      }
      var first, from, count := a / PAGE_SIZE, source / PAGE_SIZE, n / PAGE_SIZE;
      var free := IsUnmapped(first, count);
      if !free {
        return Conflict;
      }
      CommittedIsBacked(m, from, count);
      e := AliasRange(first, from, count, protection, granted);
    }

    method AliasRange(first: nat, source: nat, count: nat, protection: Protection, granted: nat) returns (e: Error)
      requires Valid() && Inv(State()) && AllBacked(State(), source, count) && !AnyMapped(State(), first, count)
      modifies this`nextGeneration, this`backings, table, table.buckets
      ensures Valid() && e == (if granted < count then NoMemory else Ok)
      ensures State() == Run(old(State()), if granted < count then Burns(granted) else AliasEdits(first, source, count, protection))
    {
      hide Run, Table.Valid, Table.Contents, AliasEdits, Burns, Counted, Stamped, AliasEffect, RecordsOf;
      ghost var m, edits := State(), AliasEdits(first, source, count, protection);
      EditCount(first, source, count, protection);
      var records := AllocateAliases(first, source, count, protection, granted);
      assert forall p: nat :: InRange(p, first, count) ==> p !in m.pages;
      AliasRun(m, first, source, count, protection, |records|);
      if |records| < count {
        DropAliases(m, records, edits, first, source, count, protection);
        BurnsAdd(m, granted);
        BurntByAliases(m, Run(m, edits[..granted]), first, source, count, protection, granted);
        return NoMemory;
      }
      e := Ok;
      assert edits[..count] == edits;
      NumbersOf(records, first, count, Run(m, edits).pages);
      RecordsUnmapped(m, first, count, records);
      ghost var s := State();
      InsertAll(records);
      AliasesAdded(m, Run(m, edits), records, first, source, count, protection);
    }

    // ---- Accesses ----

    /** The records of a range, if every page allows the access; else the first page's error. */
    method LookUp(first: nat, count: nat, write: bool, execute: bool) returns (e: Error, records: seq<PageNode>)
      requires Valid()
      ensures e == CheckAccess(State(), first, count, write, execute)
      ensures e == Ok ==> |records| == count && forall k :: 0 <= k < count ==> records[k].number == first + k && Holds(records[k])
    {
      hide CheckAccess, Table.Valid, Table.Contents;
      ghost var m := State();
      records := [];
      for k := 0 to count
        invariant CheckAccess(m, first, count, write, execute) == CheckAccess(m, first + k, count - k, write, execute)
        invariant |records| == k && forall j :: 0 <= j < k ==> records[j].number == first + j && Holds(records[j])
      {
        CheckAccessFrom(m, first + k, count - k, write, execute);
        var page := table.At(first + k);
        if page == null {
          return NotReserved, records;
        }
        if page.value.backing.None? {
          return NotCommitted, records;
        }
        if !Allowed(page.value.protection, write, execute) {
          return AccessDenied, records;
        }
        AtIsHeld(first + k, page);
        records := records + [page];
      }
      CheckAccessFrom(m, first + count, 0, write, execute);
      e := Ok;
    }

    lemma AtIsHeld(p: nat, n: PageNode)
      requires Valid() && p in table.nodes && table.nodes[p] == n
      ensures n.number == p && Holds(n)
    {
    }

    /** The first record of a range that carries a guard. */
    method FirstArmed(records: seq<PageNode>, first: nat) returns (g: Option<PageNode>)
      requires forall k :: 0 <= k < |records| ==> records[k].number == first + k && Holds(records[k])
      ensures g.Some? <==> FirstGuard(State(), first, |records|).Some?
      ensures g.Some? ==> Holds(g.value) && g.value.number == FirstGuard(State(), first, |records|).value
    {
      hide FirstGuard;
      ghost var m := State();
      for k := 0 to |records|
        invariant FirstGuard(m, first, |records|) == FirstGuard(m, first + k, |records| - k)
      {
        FirstGuardFrom(m, first + k, |records| - k);
        if records[k].value.protection.guard {
          return Some(records[k]);
        }
      }
      FirstGuardFrom(m, first + |records|, 0);
      g := None;
    }

    /** A copy of its own for a page, no longer write-copy. */
    method DetachPage(n: PageNode, cell: Fresh)
      requires Valid() && Holds(n) && Enabled(State(), Detach(n.number, cell))
      modifies this`nextGeneration, this`backings, n`value
      ensures Valid() && State() == GuestMemory.TouchPage(Detached(old(State()), n.number, cell), n.number)
    {
      hide Table.Valid, Table.Contents, DropOption;
      HeldValue(n);
      var b := n.value.backing.value;
      backings := backings[cell.id := Backing(backings[b].data, 1, cell.generation)];
      DropBacking(n.value.backing);
      SetBacking(n, Some(cell.id));
      SetProtection(n, Promoted(n.value.protection));
      TouchPage(n);
    }

    /** What an access does to one page's record before any byte moves. */
    method PromotePage(n: PageNode, write: bool, cell: Fresh)
      requires Valid() && Holds(n) && Backed(State(), n.number)
      requires write && Copies(State(), n.number) ==> Enabled(State(), Detach(n.number, cell))
      modifies this`nextGeneration, this`backings, n`value
      ensures Valid() && State() == Run(old(State()), PromoteEdit(old(State()), n.number, write, cell))
    {
      hide Table.Valid, Table.Contents, Apply, Run, Detached;
      ghost var m := State();
      HeldValue(n);
      PromoteResult(m, n.number, write, cell);
      if IsWriteCopy(n.value.protection) {
        if backings[n.value.backing.value].data.External? {
          SetProtection(n, Promoted(n.value.protection));
        } else if write {
          DetachPage(n, cell);
        }
      }
    }

    method PromotePages(records: seq<PageNode>, first: nat, write: bool, cells: seq<Fresh>)
      requires Valid() && Inv(State()) && |cells| == |records| && AllLoadable(State(), first, |records|)
      requires forall k :: 0 <= k < |records| ==> records[k].number == first + k && Holds(records[k]) && records[k] in table.Repr
      requires write ==> Allocated(State(), cells)
      modifies this`nextGeneration, this`backings, table.Repr`value
      ensures Valid() && State() == Run(old(State()), PromoteEdits(old(State()), first, cells, write, |cells|))
    {
      hide Run, Apply, Inv, Table.Valid, Table.Contents, PromoteEdit, PromoteEdits, Allocated, PromotedPages, ContentKept, Loadable,
           Copies, Enabled;
      ghost var m := State();
      NoEdits(m);
      if write {
        AllocatedUnused(m, cells);
      }
      PromoteEditsFrom(m, first, cells, write, 0);
      for k := 0 to |records|
        invariant Valid() && table.nodes == old(table.nodes) && State() == Run(m, PromoteEdits(m, first, cells, write, k))
      {
        PromoteEditsFrom(m, first, cells, write, k + 1);
        PromoteRun(m, first, cells, write, k);
        ghost var s := State();
        RunAppend(m, PromoteEdits(m, first, cells, write, k), PromoteEdit(m, first + k, write, cells[k]));
        FewerLoadable(m, first, |records|, k);
        NextPromotion(m, s, first, cells, write, k);
        PromotePage(records[k], write, cells[k]);
      }
    }

    /** Bytes into a page's storage, then the stamps of both. */
    method StorePage(n: PageNode, offset: nat, bytes: seq<Byte>)
      requires Valid() && Holds(n) && Loadable(State(), n.number) && offset + |bytes| <= PAGE_SIZE
      modifies this`nextGeneration, this`backings, this`host, n`value
      ensures Valid()
      ensures State() == StoreThrough(old(State()), n.number, Overwrite(LoadPage(old(State()), n.number), offset, bytes))
    {
      hide Table.Valid, Table.Contents, Overwrite;
      HeldValue(n);
      ghost var m := State();
      var b := n.value.backing.value;
      match backings[b].data {
      case Internal(page) => backings := backings[b := backings[b].(data := Internal(Overwrite(page, offset, bytes)))];
      case External(h) => host := host[h := Overwrite(host[h], offset, bytes)];
      }
      assert State() == SetBytes(m, b, Overwrite(LoadPage(m, n.number), offset, bytes));
      TouchBacking(b);
      TouchPage(n);
    }

    /** The caller's bytes, page by page; `done` of them have been written. */
    method StorePages(records: seq<PageNode>, a: nat, data: seq<Byte>)
      requires Valid() && |records| == Span(a, |data|) && AllLoadable(State(), a / PAGE_SIZE, |records|)
      requires forall k :: 0 <= k < |records| ==> records[k].number == a / PAGE_SIZE + k && Holds(records[k]) && records[k] in table.Repr
      modifies this`nextGeneration, this`backings, this`host, table.Repr`value
      ensures Valid() && State() == Run(old(State()), StoreEdits(a, data))
    {
      hide Run, Apply, Table.Valid, Table.Contents, StoreThrough, Overwrite, Loadable, Span, SameSharing, OthersKept, AgreementIn,
           Written,
           Start, Offset;
      ghost var m, edits := State(), StoreEdits(a, data);
      NoEdits(m);
      assert edits[..0] == [];
      var done := 0;
      StartAt(a, |data|, 0);
      for k := 0 to |records|
        invariant Valid() && table.nodes == old(table.nodes) && State() == Run(m, edits[..k])
        invariant done == Start(a, |data|, k)
      {
        ChunkFits(a, |data|, k);
        StartAt(a, |data|, k);
        RunPrefix(m, edits, k + 1);
        StoresRun(m, a, data, k);
        FewerLoadable(m, a / PAGE_SIZE, |records|, k);
        SharingLoadable(m, State(), PageAt(a, k));
        StoreResult(State(), PageAt(a, k), Offset(a, k), Chunk(data, a, k));
        var size := PAGE_SIZE - (a + done) % PAGE_SIZE;
        if size > |data| - done {
          size := |data| - done;
        }
        StorePage(records[k], (a + done) % PAGE_SIZE, data[done..done + size]);
        done := done + size;
      }
      assert edits[..|records|] == edits;
    }

    /** The bytes of a range, page by page. */
    method LoadPages(records: seq<PageNode>, a: nat, n: nat) returns (bytes: seq<Byte>)
      requires Valid() && |records| == Span(a, n) && AllLoadable(State(), a / PAGE_SIZE, |records|)
      requires forall k :: 0 <= k < |records| ==> records[k].number == a / PAGE_SIZE + k && Holds(records[k])
      ensures bytes == Gathered(State(), a, n, Span(a, n))
    {
      hide Table.Valid, Table.Contents, Loadable, Span, Start, Offset;
      ghost var m := State();
      bytes := [];
      var done := 0;
      StartAt(a, n, 0);
      for k := 0 to |records|
        invariant AllLoadable(m, a / PAGE_SIZE, k) && bytes == Gathered(m, a, n, k)
        invariant done == Start(a, n, k)
      {
        ChunkFits(a, n, k);
        StartAt(a, n, k);
        FewerLoadable(m, a / PAGE_SIZE, |records|, k);
        OneMoreLoadable(m, a / PAGE_SIZE, k);
        HeldValue(records[k]);
        var size := PAGE_SIZE - (a + done) % PAGE_SIZE;
        if size > n - done {
          size := n - done;
        }
        var page := PageContent(records[k]);
        bytes := bytes + page[(a + done) % PAGE_SIZE..(a + done) % PAGE_SIZE + size];
        done := done + size;
      }
    }

    method PageContent(n: PageNode) returns (page: PageBytes)
      requires Valid() && Holds(n) && Loadable(State(), n.number)
      ensures page == LoadPage(State(), n.number)
    {
      HeldValue(n);
      match backings[n.value.backing.value].data
      case Internal(bytes) => page := bytes;
      case External(h) => page := host[h];
    }

    /** What backings a write needs and is granted: one for each write-copy page of owned storage. */
    method CanCopy(records: seq<PageNode>, grants: seq<bool>) returns (granted: bool)
      requires Valid() && |grants| == |records| && forall k :: 0 <= k < |records| ==> Holds(records[k])
      requires forall k :: 0 <= k < |records| ==> Backed(State(), records[k].number)
      ensures granted <==> forall k :: 0 <= k < |records| && Copies(State(), records[k].number) ==> grants[k]
    {
      hide Table.Valid, Table.Contents;
      for k := 0 to |records|
        invariant forall j :: 0 <= j < k && Copies(State(), records[j].number) ==> grants[j]
      {
        HeldValue(records[k]);
        var value := records[k].value;
        if IsWriteCopy(value.protection) && backings[value.backing.value].data.Internal? && !grants[k] {
          assert Copies(State(), records[k].number);
          return false;
        }
      }
      granted := true;
    }

    /** A write, once the whole range is known to allow it and no guard is armed. */
    method WriteRange(records: seq<PageNode>, a: nat, data: seq<Byte>, cells: seq<Fresh>)
      requires Valid() && Inv(State()) && |cells| == |records| == Span(a, |data|) && Allocated(State(), cells)
      requires AllLoadable(State(), a / PAGE_SIZE, |records|)
      requires forall k :: 0 <= k < |records| ==> records[k].number == a / PAGE_SIZE + k && Holds(records[k])
      modifies this`nextGeneration, this`backings, this`host, table.Repr`value
      ensures Valid()
      ensures State() == Run(old(State()), PromoteEdits(old(State()), a / PAGE_SIZE, cells, true, |cells|) + StoreEdits(a, data))
    {
      hide Run, Inv, Table.Valid, Table.Contents, PromoteEdits, StoreEdits, Allocated, Loadable, Span, PromotedPages, ContentKept;
      ghost var m := State();
      var first := a / PAGE_SIZE;
      AllOwn(records);
      AllocatedUnused(m, cells);
      PromotePages(records, first, true, cells);
      PromoteRun(m, first, cells, true, |cells|);
      PromotedLoadable(m, State(), first, |cells|);
      StorePages(records, a, data);
      RunAppend(m, PromoteEdits(m, first, cells, true, |cells|), StoreEdits(a, data));
    }

    lemma AllOwn(records: seq<PageNode>)
      requires Valid() && forall k :: 0 <= k < |records| ==> Holds(records[k])
      ensures forall k :: 0 <= k < |records| ==> records[k] in table.Repr
    {
      forall k | 0 <= k < |records| ensures records[k] in table.Repr {
        HeldIsOwn(records[k]);
      }
    }

    /**
     `access_memory_locked`, for reads, writes, instruction fetches and executability queries.  `scratch` and
     `grants` are the allocator's answers, `cells` the backings it would give.
     */
    method AccessMemory(a: nat, n: nat, kind: AccessKind, consumeGuard: bool, scratch: bool, grants: seq<bool>, cells: seq<Fresh>)
      returns (e: Error, bytes: seq<Byte>)
      requires Valid() && Inv(State()) && (kind.Write? ==> |kind.data| == n)
      requires |grants| == |cells| == Span(a, n) && Allocated(State(), cells)
      modifies this`nextGeneration, this`backings, this`host, table.Repr`value
      ensures Valid()
      ensures var plan := AccessPlan(old(State()), a, n, kind, consumeGuard, scratch,
                            if CopiesGranted(old(State()), a / PAGE_SIZE, grants) then Some(cells) else None);
              e == plan.error && State() == Run(old(State()), plan.edits)
      ensures e == Ok && n != 0 && (kind.Read? || kind.Fetch?) ==>
                AllLoadable(State(), a / PAGE_SIZE, Span(a, n)) && bytes == Gathered(State(), a, n, Span(a, n))
    {
      hide Run, Inv, Table.Valid, Table.Contents, PromoteEdits, StoreEdits, Allocated, Loadable, Span, CheckAccess, FirstGuard,
           Copies, PromotedPages, ContentKept;
      ghost var m := State();
      NoEdits(m);
      bytes := [];
      if a > UINT64_MAX || a + n > UINT64_MAX {
        return InvalidArgument, bytes;
      }
      if n == 0 {
        return Ok, bytes;
      }
      if n + a % PAGE_SIZE + (PAGE_SIZE - 1) > UINT64_MAX {
        return Overflow, bytes;
      }
      if !scratch {
        return NoMemory, bytes;
      }
      var records;
      var first, count := a / PAGE_SIZE, |cells|;
      e, records := LookUp(first, count, kind.Write?, kind.Fetch? || kind.QueryExecute?);
      if e != Ok || kind.QueryExecute? {
        return;
      }
      AllowedIsLoadable(m, first, count, kind.Write?, kind.Fetch?);
      var g := FirstArmed(records, first);
      if g.Some? {
        if consumeGuard {
          HeldIsOwn(g.value);
          ClearOneGuard(g.value);
        }
        return GuardPage, bytes;
      }
      RangeBacked(m, first, records);
      if kind.Write? {
        var granted := CanCopy(records, grants);
        assert granted <==> CopiesGranted(m, first, grants);
        if !granted {
          return NoMemory, bytes;
        }
        WriteRange(records, a, kind.data, cells);
      } else {
        bytes := ReadRange(records, a, n);
      }
    }

    method ClearOneGuard(n: PageNode)
      requires Valid() && Holds(n)
      modifies this`nextGeneration, n`value
      ensures Valid()
      ensures n.number in old(State()).pages
      ensures State() == Run(old(State()), [Edit.Protect(n.number, Unguarded(old(State()).pages[n.number].protection))])
    {
      hide Table.Valid, Table.Contents, Run, Apply;
      HeldValue(n);
      ClearGuard(State(), n.number);
      SetProtection(n, Unguarded(n.value.protection));
      TouchPage(n);
    }

    method ReadRange(records: seq<PageNode>, a: nat, n: nat) returns (bytes: seq<Byte>)
      requires Valid() && Inv(State()) && |records| == Span(a, n) && AllLoadable(State(), a / PAGE_SIZE, |records|)
      requires forall k :: 0 <= k < |records| ==> records[k].number == a / PAGE_SIZE + k && Holds(records[k])
      modifies this`nextGeneration, this`backings, table.Repr`value
      ensures Valid() && State() == Run(old(State()), ReadEdits(old(State()), a / PAGE_SIZE, |records|))
      ensures AllLoadable(State(), a / PAGE_SIZE, |records|) && bytes == Gathered(State(), a, n, |records|)
    {
      hide Run, Inv, Table.Valid, Table.Contents, PromoteEdits, Allocated, Loadable, Span, PromotedPages, ContentKept;
      ghost var m, first, count := State(), a / PAGE_SIZE, |records|;
      ghost var none := seq(count, _ => Fresh(0, 0));
      AllOwn(records);
      PromotePages(records, a / PAGE_SIZE, false, seq(|records|, _ => Fresh(0, 0)));
      PromoteRun(m, first, none, false, count);
      PromotedLoadable(m, State(), first, count);
      bytes := LoadPages(records, a, n);
    }

    // ---- Transactions ----

    /** Whether a record still describes the page, as `finish` and `commit_pages` look at it. */
    method IsCurrent(d: Dependency, hash: ContentHash) returns (current: bool)
      requires Valid() && Inv(State())
      ensures current <==> Current(State(), d, hash)
    {
      hide Table.Valid, Table.Contents, Counted, Stamped;
      var page := table.At(d.page);
      if page == null || page.value.backing != Some(d.backing) || page.value.generation != d.generation {
        return false;
      }
      MappedIsBacked(State(), d.page);
      var backing := backings[d.backing];
      if backing.generation != d.contentGeneration || page.value.protection != d.protection {
        return false;
      }
      if !d.external {
        return true;
      }
      assert ReadableBacking(State(), d.backing);
      var content := match backing.data case Internal(bytes) => bytes case External(h) => host[h];
      current := hash(content) == d.contentHash;
    }

    /** `finish`: the records in turn, up to the first that is no longer current. */
    method FinishTransaction(t: TransactionId, hash: ContentHash) returns (e: Error, fault: Option<nat>)
      requires Valid() && Inv(State()) && t in transactions
      ensures Finish(State(), t, hash) == FinishResult(e, fault)
    {
      hide FirstStale, Inv, Current, Table.Valid, Table.Contents;
      ghost var m := State();
      var ds := transactions[t].dependencies;
      for k := 0 to |ds|
        invariant StaleFrom(m, ds, 0, hash) == StaleFrom(m, ds, k, hash)
      {
        var current := IsCurrent(ds[k], hash);
        if current {
          StaleStep(m, ds, k, hash);
        } else {
          StaleIsFirst(m, ds, k, hash);
          return Conflict, Some(ds[k].page);
        }
      }
      StaleNone(m, ds, hash);
      return Ok, None;
    }

    // ---- Committing pages ----

    /** Whether an address occurs among the first `k` writes. */
    method Repeated(writes: seq<PageWrite>, k: nat) returns (repeated: bool)
      requires k < |writes|
      ensures repeated <==> exists j :: 0 <= j < k && writes[j].address == writes[k].address
    {
      for j := 0 to k
        invariant forall i :: 0 <= i < j ==> writes[i].address != writes[k].address
      {
        if writes[j].address == writes[k].address {
          return true;
        }
      }
      repeated := false;
    }

    /** Alignment, repetition and access of every write, in turn. */
    method CheckPageWrites(writes: seq<PageWrite>) returns (e: Error)
      requires Valid()
      ensures e == CheckWrites(State(), writes, 0)
    {
      hide CheckWrites, Table.Valid, Table.Contents;
      ghost var m := State();
      for k := 0 to |writes|
        invariant CheckWrites(m, writes, 0) == CheckWrites(m, writes, k)
      {
        CheckWritesFrom(m, writes, k);
        if writes[k].data.None? || writes[k].address % PAGE_SIZE != 0 {
          return InvalidArgument;
        }
        var repeated := Repeated(writes, k);
        if repeated {
          return InvalidArgument;
        }
        var page := table.At(writes[k].address / PAGE_SIZE);
        if page == null {
          return NotReserved;
        }
        if page.value.backing.None? {
          return NotCommitted;
        }
        if !Allowed(page.value.protection, true, false) {
          return AccessDenied;
        }
      }
      CheckWritesFrom(m, writes, |writes|);
      e := Ok;
    }

    /** The first armed guard, or the first copy that cannot be had. */
    method FindObstacle(writes: seq<PageWrite>, grants: seq<bool>) returns (o: Obstacle)
      requires Valid() && Inv(State()) && GoodWrites(State(), writes) && |grants| == |writes|
      ensures o == FirstObstacle(State(), writes, grants, 0)
    {
      hide FirstObstacle, Table.Valid, Table.Contents, Inv;
      ghost var m := State();
      for k := 0 to |writes|
        invariant FirstObstacle(m, writes, grants, 0) == FirstObstacle(m, writes, grants, k)
      {
        FirstObstacleFrom(m, writes, grants, k);
        GoodAt(m, writes, k);
        var page := table.At(WritePage(writes[k]));
        if page.value.protection.guard {
          return Guarded(k);
        }
        if IsWriteCopy(page.value.protection) && backings[page.value.backing.value].data.Internal? && !grants[k] {
          return NoCopy(k);
        }
      }
      FirstObstacleFrom(m, writes, grants, |writes|);
      o := Clear;
    }

    method PutBytes(b: BackingId, page: PageBytes)
      requires ReadableBacking(State(), b)
      modifies this`backings, this`host
      ensures State() == SetBytes(old(State()), b, page)
    {
      match backings[b].data
      case Internal(_) => backings := backings[b := backings[b].(data := Internal(page))];
      case External(h) => host := host[h := page];
    }

    /** The line-by-line copy: only lines that differ are written, and each of them is counted. */
    method CopyLines(b: BackingId, data: PageBytes) returns (changed: nat)
      requires ReadableBacking(State(), b)
      modifies this`backings, this`host
      ensures State() == SetBytes(old(State()), b, data)
      ensures changed == LINE * DifferingLines(Contents(old(State()), b), data, LINES)
    {
      hide Table.Contents, WithLine, SetBytes, Blend;
      ghost var m, before := State(), Contents(State(), b);
      SetBytesSame(m, b);
      var page := match backings[b].data case Internal(bytes) => bytes case External(h) => host[h];
      changed := 0;
      NoLinesYet(before, data);
      for line := 0 to LINES
        invariant page == Blend(before, data, line)
        invariant State() == SetBytes(m, b, page)
        invariant changed == LINE * DifferingLines(before, data, line)
      {
        BlendLine(before, data, line);
        if page[line * LINE..(line + 1) * LINE] != data[line * LINE..(line + 1) * LINE] {
          SetBytesTwice(m, b, page, WithLine(page, data, line));
          page := WithLine(page, data, line);
          PutBytes(b, page);
          changed := changed + LINE;
        }
      }
      AllLines(before, data);
    }

    /** A transaction's record of a page, if it has one. */
    method FindRecord(t: TransactionId, p: nat) returns (i: Option<nat>)
      requires t in transactions
      ensures i == FindDependency(transactions[t].dependencies, p)
    {
      hide FindDependency;
      var ds := transactions[t].dependencies;
      for k := 0 to |ds|
        invariant FindFrom(ds, 0, p) == FindFrom(ds, k, p)
      {
        if ds[k].page == p {
          FoundAt(ds, k, p);
          return Some(k);
        }
        FindStep(ds, k, p);
      }
      FindNone(ds, p);
      i := None;
    }

    /** The page's own copy, if one was made for it, or the end of its write-copy state. */
    method Prepare(n: PageNode, copy: Option<Fresh>)
      requires Valid() && Holds(n) && Enabled(State(), Publish(n.number, copy, ZeroPage()))
      modifies this`backings, n`value
      ensures Valid() && Holds(n) && State() == Prepared(old(State()), n.number, copy)
    {
      hide Table.Valid, Table.Contents, DropOption;
      HeldValue(n);
      if copy.Some? {
        var b := n.value.backing.value;
        backings := backings[copy.value.id := Backing(backings[b].data, 1, copy.value.generation)];
        DropBacking(n.value.backing);
        SetBacking(n, Some(copy.value.id));
        SetProtection(n, Promoted(n.value.protection));
      } else if IsWriteCopy(n.value.protection) {
        SetProtection(n, Promoted(n.value.protection));
      }
    }

    /** Publishes one page: its bytes now if the caller owns them, else only its stamps. */
    method PublishPage(n: PageNode, copy: Option<Fresh>, data: PageBytes) returns (changed: nat)
      requires Valid() && Holds(n) && Enabled(State(), Publish(n.number, copy, data))
      modifies this`nextGeneration, this`backings, this`host, n`value
      ensures Valid() && Holds(n)
      ensures var m, b := old(State()), BackingOf(old(State()), n.number);
              var bytes := if IsInternal(m, b) then LoadPage(m, n.number) else data;
              && State() == GuestMemory.PublishPage(m, n.number, copy, bytes)
              && changed == if IsInternal(m, b) then 0 else LINE * DifferingLines(LoadPage(m, n.number), data, LINES)
    {
      hide Table.Valid, Table.Contents, SetBytes, Prepared, DifferingLines;
      ghost var m := State();
      PreparedStorage(m, n.number, copy);
      Prepare(n, copy);
      HeldValue(n);
      var b := n.value.backing.value;
      changed := 0;
      SetBytesSame(State(), b);
      if backings[b].data.External? {
        changed := CopyLines(b, data);
        SetBytesKeepsBackings(Prepared(m, n.number, copy), b, data);
      }
      TouchBacking(b);
      TouchPage(n);
    }

    /** The commit keeps the page's backing alive while it is still copying. */
    method HoldBacking(t: TransactionId, n: PageNode)
      requires Valid() && Holds(n) && t in transactions && Backed(State(), n.number)
      modifies this`backings, this`transactions
      ensures Valid() && Holds(n) && State() == HoldPage(old(State()), t, n.number)
    {
      hide Table.Valid, Table.Contents;
      HeldValue(n);
      var b := n.value.backing.value;
      backings := backings[b := backings[b].(refs := backings[b].refs + 1)];
      transactions := transactions[t := transactions[t].(inFlight := transactions[t].inFlight + [b])];
    }

    /** The transaction's record of a page follows it to its new stamps and storage. */
    method RefreshRecord(t: TransactionId, i: nat, n: PageNode, contentHash: nat)
      requires Valid() && Holds(n) && HasDependency(State(), t, i) && Backed(State(), n.number)
      requires transactions[t].dependencies[i].page == n.number
      modifies this`backings, this`transactions
      ensures Valid() && Holds(n) && State() == RefreshPin(old(State()), t, i, contentHash)
    {
      hide Table.Valid, Table.Contents, Drop;
      HeldValue(n);
      var prior := transactions[t].dependencies[i];
      var b := n.value.backing.value;
      var now := Dependency(n.number, n.value.generation, backings[b].generation, contentHash, b, n.value.protection,
                            backings[b].data.External?);
      backings := backings[b := backings[b].(refs := backings[b].refs + 1)];
      DropBacking(Some(prior.backing));
      transactions := transactions[t := transactions[t].(dependencies := transactions[t].dependencies[i := now])];
    }

    /** One write of a commit, as far as it goes under the metadata lock. */
    method CommitOne(t: TransactionId, n: PageNode, cell: Fresh, data: PageBytes, hash: ContentHash)
      returns (changed: nat, home: BackingId)
      requires Valid() && Inv(State()) && Holds(n) && t in transactions && Loadable(State(), n.number)
      requires IsFresh(State(), cell)
      modifies this`nextGeneration, this`backings, this`host, this`transactions, n`value
      ensures Valid()
      ensures var m, p := old(State()), n.number;
              var bytes := if IsInternal(m, BackingOf(m, p)) then LoadPage(m, p) else data;
              && State() == Run(m, [PublishEdit(m, p, cell, bytes), Hold(t, p)] + RecordEdit(m, t, p, bytes, hash))
              && home == HomeAfter(m, p, cell)
              && changed == if IsInternal(m, BackingOf(m, p)) then 0 else LINE * DifferingLines(LoadPage(m, p), data, LINES)
    {
      hide Table.Valid, Table.Contents, GuestMemory.PublishPage, HoldPage, RefreshPin, Run, FindDependency, Inv, DifferingLines, Do;
      ghost var m, p := State(), n.number;
      HeldValue(n);
      var external := backings[n.value.backing.value].data.External?;
      var copy := if IsWriteCopy(n.value.protection) && !external then Some(cell) else None;
      ghost var bytes := if external then data else LoadPage(m, p);
      changed := PublishPage(n, copy, data);
      PublishedPage(m, t, p, copy, bytes);
      HeldValue(n);
      home := n.value.backing.value;
      HoldBacking(t, n);
      ghost var edits := [PublishEdit(m, p, cell, bytes), Hold(t, p)];
      TwoEdits(m, edits[0], edits[1]);
      PublishThenHold(m, t, p, copy, bytes);
      var i := FindRecord(t, n.number);
      RunAppend(m, edits, RecordEdit(m, t, p, bytes, hash));
      NoEdits(State());
      if i.Some? {
        var contentHash := if external then hash(data) else 0;
        RefreshAsEdit(State(), t, i.value, contentHash);
        OneEdit(State(), Refresh(t, i.value, contentHash));
        RefreshRecord(t, i.value, n, contentHash);
      }
    }

    /** The guard a commit ran into is cleared, and the transaction's record of the page follows. */
    method UseGuard(t: TransactionId, p: nat)
      requires Valid() && t in transactions && Backed(State(), p)
      modifies this`nextGeneration, this`transactions, table.Repr`value
      ensures Valid() && State() == Run(old(State()), GuardEdits(old(State()), t, p))
    {
      hide Table.Valid, Table.Contents, Run, Apply, FindDependency, Unguarded;
      ghost var m := State();
      var page := Mapped(p);
      var i := FindRecord(t, p);
      ClearGuard(m, p);
      ClearOneGuard(page);
      HeldValue(page);
      GuardEditsRun(m, State(), t, p);
      if i.Some? {
        var prior := transactions[t].dependencies[i.value];
        var now := prior.(generation := page.value.generation, protection := page.value.protection);
        transactions := transactions[t := transactions[t].(dependencies := transactions[t].dependencies[i.value := now])];
      }
    }

    /**
     The pages of a commit published one by one, those the caller owns with their bytes.  `homes` is where
     each page's storage now is; `changed` counts the bytes written so far.
     */
    method PublishWrites(t: TransactionId, writes: seq<PageWrite>, cells: seq<Fresh>, hash: ContentHash)
      returns (changed: nat, homes: seq<BackingId>, copied: seq<bool>)
      requires Valid() && Inv(State()) && t in transactions && GoodWrites(State(), writes) && |cells| == |writes|
      requires Allocated(State(), cells)
      modifies this`nextGeneration, this`backings, this`host, this`transactions, table.Repr`value
      ensures Valid() && Inv(State())
      ensures State() == Run(old(State()), WriteEdits(old(State()), t, Withheld(old(State()), writes), cells, hash, |writes|))
      ensures |homes| == |writes| && HomesOf(old(State()), writes, cells, homes, copied)
      ensures changed == BytesChanged(old(State()), writes, |writes|, true)
    {
      hide Table.Valid, Table.Contents, Run, WriteEdits, Inv, Allocated, Awaiting, Committed, PublishEdit, RecordEdit,
           BytesChanged, Withheld,
           HomeAfter, GoodWrites, DifferingLines, Before, HomesOf;
      ghost var m, held := State(), Withheld(State(), writes);
      NoEdits(m);
      WriteEditsFrom(m, t, held, cells, hash, 0);
      BytesChangedFrom(m, writes, 0, true);
      changed, homes, copied := 0, [], [];
      NoHomes(m, writes, cells);
      for k := 0 to |writes|
        invariant Valid() && Inv(State()) && table.nodes == old(table.nodes) && t in transactions
        invariant State() == Run(m, WriteEdits(m, t, held, cells, hash, k))
        invariant |homes| == k && HomesOf(m, writes, cells, homes, copied)
        invariant changed == BytesChanged(m, writes, k, true)
      {
        ghost var s := State();
        GoodAt(m, writes, k);
        WritesRun(m, t, held, cells, hash, k);
        ReadyToWrite(m, s, t, writes, cells, hash, k);
        WriteEditsFrom(m, t, held, cells, hash, k + 1);
        BytesChangedFrom(m, writes, k + 1, true);
        var page := Mapped(WritePage(writes[k]));
        var external := backings[page.value.backing.value].data.External?;
        var more, home := CommitOne(t, page, cells[k], writes[k].data.value, hash);
        RunAppend(m, WriteEdits(m, t, held, cells, hash, k), OneWriteEdits(m, t, held, cells, hash, k));
        WritesRun(m, t, held, cells, hash, k + 1);
        changed := changed + more;
        HomesGrow(m, writes, cells, homes, copied, home, external);
        homes := homes + [home];
        copied := copied + [external];
      }
    }

    /** The bytes of owned pages, copied line by line after the metadata lock has been given up. */
    method CopyWrites(ghost m: Memory, ghost t: TransactionId, writes: seq<PageWrite>, ghost cells: seq<Fresh>, ghost hash: ContentHash,
                      homes: seq<BackingId>, copied: seq<bool>) returns (changed: nat)
      requires Inv(m) && t in m.transactions && GoodWrites(m, writes) && |cells| == |writes| == |homes| && Allocated(m, cells)
      requires HomesOf(m, writes, cells, homes, copied)
      requires State() == Run(m, WriteEdits(m, t, Withheld(m, writes), cells, hash, |writes|))
      modifies this`backings, this`host
      ensures State() == Run(m, WriteEdits(m, t, writes, cells, hash, |writes|))
      ensures changed == BytesChanged(m, writes, |writes|, false)
    {
      hide Table.Contents, Run, WriteEdits, Inv, Allocated, BytesChanged, Withheld, HomeAfter, GoodWrites, DifferingLines, Before,
           HomesOf,
           CopiesOwed, CopyOwed, Settled, Contents, ReadableBacking, SetBytes;
      ghost var s := State();
      NothingOwed(s);
      CopiesOwedFrom(m, t, writes, cells, 0);
      BytesChangedFrom(m, writes, 0, false);
      changed := 0;
      for i := 0 to |writes|
        invariant State() == Settled(s, CopiesOwed(m, t, writes, cells, i))
        invariant changed == BytesChanged(m, writes, i, false)
      {
        GoodAt(m, writes, i);
        CopiesOwedFrom(m, t, writes, cells, i + 1);
        BytesChangedFrom(m, writes, i + 1, false);
        HomeIs(m, writes, cells, homes, copied, i);
        if copied[i] {
          ExternalOwesNothing(m, t, writes, cells, i);
        } else {
          CopyTarget(m, s, t, writes, cells, hash, i);
          var more := CopyLines(homes[i], writes[i].data.value);
          changed := changed + more;
        }
      }
      NonePinned(m);
      SplitRun(m, [], t, writes, cells, hash, |writes|);
      NothingOwed(m);
      assert [] + CopiesOwed(m, t, writes, cells, |writes|) == CopiesOwed(m, t, writes, cells, |writes|);
    }

    /** The pins of the commit, given back. */
    method LetGoAll(t: TransactionId, count: nat)
      requires t in transactions && count <= |transactions[t].inFlight|
      modifies this`backings, this`transactions
      ensures State() == Run(old(State()), LetGos(t, count))
    {
      hide Table.Contents, Run, Apply, Drop;
      ghost var m := State();
      NoEdits(m);
      assert LetGos(t, 0) == [];
      for k := 0 to count
        invariant t in transactions && |transactions[t].inFlight| == |m.transactions[t].inFlight| - k
        invariant State() == Run(m, LetGos(t, k))
      {
        assert LetGos(t, k + 1) == LetGos(t, k) + [LetGo(t)];
        RunSnoc(m, LetGos(t, k), LetGo(t));
        LetGoAsEdit(State(), t);
        var held := transactions[t].inFlight;
        DropBacking(Some(held[|held| - 1]));
        transactions := transactions[t := transactions[t].(inFlight := held[..|held| - 1])];
      }
    }

    /**
     `commit_pages`, when nothing runs while the metadata lock is given up.  `committed` is 64 bytes for
     every cache line that was not already equal.
     */
    method CommitPages(t: TransactionId, writes: seq<PageWrite>, grants: seq<bool>, cells: seq<Fresh>, hash: ContentHash)
      returns (e: Error, committed: nat)
      requires Valid() && Inv(State()) && t in transactions && |grants| == |cells| == |writes| && Allocated(State(), cells)
      modifies this`nextGeneration, this`backings, this`host, this`transactions, table.Repr`value
      ensures Valid()
      ensures var plan := CommitPagesPlan(old(State()), t, writes, grants, cells, hash);
              e == plan.error && State() == Run(old(State()), plan.edits)
      ensures e == Ok ==>
                && GoodWrites(old(State()), writes)
                && committed == BytesChanged(old(State()), writes, |writes|, true) + BytesChanged(old(State()), writes, |writes|, false)
    {
      hide Table.Valid, Table.Contents, Run, WriteEdits, Inv, Allocated, BytesChanged, Withheld, HomeAfter, GoodWrites, HomesOf,
           FirstStale,
           CheckWrites, FirstObstacle, GuardEdits, LetGos, Committed, Awaiting;
      ghost var m := State();
      NoEdits(m);
      committed := 0;
      if |writes| > MAX_WRITES {
        return InvalidArgument, committed;
      }
      var fault;
      e, fault := FinishTransaction(t, hash);
      if e != Ok {
        return;
      }
      e := CheckPageWrites(writes);
      if e != Ok {
        return;
      }
      CheckedWritesAreGood(m, writes);
      var obstacle := FindObstacle(writes, grants);
      match obstacle
      case Guarded(i) =>
        GoodAt(m, writes, i);
        UseGuard(t, WritePage(writes[i]));
        e := GuardPage;
      case NoCopy(_) =>
        e := NoMemory;
      case Clear =>
        var homes, copied;
        committed, homes, copied := PublishWrites(t, writes, cells, hash);
        var more := CopyWrites(m, t, writes, cells, hash, homes, copied);
        committed := committed + more;
        WritesRun(m, t, writes, cells, hash, |writes|);
        LetGoAll(t, |writes|);
        RunAppend(m, WriteEdits(m, t, writes, cells, hash, |writes|), LetGos(t, |writes|));
    }
  }

  lemma LetGoAsEdit(m: Memory, t: TransactionId)
    requires t in m.transactions && m.transactions[t].inFlight != []
    ensures Apply(m, LetGo(t)) == LetGoLast(m, t)
  {
  }

  lemma NonePinned(m: Memory)
    ensures Pinned(m, [])
  {
  }

  lemma CopiesOwedFrom(m: Memory, t: TransactionId, writes: seq<PageWrite>, cells: seq<Fresh>, k: nat)
    requires GoodWrites(m, writes) && k <= |writes| == |cells|
    ensures CopiesOwed(m, t, writes, cells, k)
         == if k == 0 then [] else CopiesOwed(m, t, writes, cells, k - 1) + CopyOwed(m, t, writes, cells, k - 1)
  {
  }

  lemma HomeIs(m: Memory, writes: seq<PageWrite>, cells: seq<Fresh>, homes: seq<BackingId>, copied: seq<bool>, i: nat)
    requires GoodWrites(m, writes) && |writes| == |cells| == |homes| && HomesOf(m, writes, cells, homes, copied) && i < |writes|
    ensures homes[i] == HomeAfter(m, WritePage(writes[i]), cells[i])
    ensures |copied| == |homes| && (copied[i] <==> !IsInternal(m, BackingOf(m, WritePage(writes[i]))))
  {
  }

  lemma ExternalOwesNothing(m: Memory, t: TransactionId, writes: seq<PageWrite>, cells: seq<Fresh>, i: nat)
    requires GoodWrites(m, writes) && i < |writes| == |cells| && !IsInternal(m, BackingOf(m, WritePage(writes[i])))
    ensures CopiesOwed(m, t, writes, cells, i) + CopyOwed(m, t, writes, cells, i) == CopiesOwed(m, t, writes, cells, i)
  {
  }

  lemma SetSettles(s: Memory, copies: seq<Copy>, c: Copy)
    requires IsInternal(s, c.backing)
    ensures IsInternal(Settled(s, copies), c.backing)
    ensures SetBytes(Settled(s, copies), c.backing, c.data) == Settled(s, copies + [c])
  {
    var x, y := SetBytes(Settled(s, copies), c.backing, c.data), Settled(s, copies + [c]);
    forall b | b in s.backings ensures x.backings[b] == y.backings[b] {
      LastCopyAppended(copies, c, b);
    }
    assert x.backings == y.backings;
  }

  /** Which earlier write, if any, went to the storage of the i-th: as owed copies tell it, and as pages tell it. */
  lemma {:induction false} LastOwedIsLastWriter(
    m: Memory, t: TransactionId, writes: seq<PageWrite>, cells: seq<Fresh>, i: nat, n: nat)
    requires Inv(m) && GoodWrites(m, writes) && n <= i < |writes| == |cells| && Allocated(m, cells)
    requires IsInternal(m, BackingOf(m, WritePage(writes[i])))
    ensures var owed := CopiesOwed(m, t, writes, cells, n);
            var j, w :=
                LastCopy(owed, HomeAfter(m, WritePage(writes[i]), cells[i])), LastWriter(m, writes, |writes|, n, WritePage(writes[i]));
            (j.Some? <==> w.Some?) && (j.Some? ==> owed[j.value].data == writes[w.value].data.value)
    decreases n
  {
    hide Inv, HomeAfter, OneStorage, LastCopy;
    if n > 0 {
      LastOwedIsLastWriter(m, t, writes, cells, i, n - 1);
      SameHome(m, writes, cells, i, n - 1);
      var p := WritePage(writes[n - 1]);
      if IsInternal(m, BackingOf(m, p)) {
        LastCopyAppended(CopiesOwed(m, t, writes, cells, n - 1), CopyOwed(m, t, writes, cells, n - 1)[0],
                         HomeAfter(m, WritePage(writes[i]), cells[i]));
      } else {
        ExternalOwesNothing(m, t, writes, cells, n - 1);
      }
    }
  }

  lemma SameHome(m: Memory, writes: seq<PageWrite>, cells: seq<Fresh>, i: nat, j: nat)
    requires Inv(m) && GoodWrites(m, writes) && j < i < |writes| == |cells| && Allocated(m, cells)
    requires IsInternal(m, BackingOf(m, WritePage(writes[i])))
    ensures var p, q := WritePage(writes[j]), WritePage(writes[i]);
            OneStorage(m, writes, |writes|, p, q) <==>
              IsInternal(m, BackingOf(m, p)) && HomeAfter(m, p, cells[j]) == HomeAfter(m, q, cells[i])
  {
    hide Counted, Stamped;
    var p, q := WritePage(writes[j]), WritePage(writes[i]);
    assert p != q;
    InvLoadable(m, p);
    InvLoadable(m, q);
    assert AmongWrites(writes, |writes|, p) && AmongWrites(writes, |writes|, q);
  }

  /** Each page written so far is where it is said to be. */
  ghost predicate AtHome(m: Memory, s: Memory, writes: seq<PageWrite>, cells: seq<Fresh>, k: nat)
    requires GoodWrites(m, writes) && k <= |writes| == |cells|
  {
    forall j :: 0 <= j < k ==>
      && WritePage(writes[j]) in s.pages
      && s.pages[WritePage(writes[j])].backing == Some(HomeAfter(m, WritePage(writes[j]), cells[j]))
  }

  lemma {:induction false} HomesRun(
    m: Memory, t: TransactionId, writes: seq<PageWrite>, cells: seq<Fresh>, hash: ContentHash, k: nat)
    requires Inv(m) && GoodWrites(m, writes) && k <= |writes| == |cells| && t in m.transactions && Allocated(m, cells)
    ensures AtHome(m, Run(m, WriteEdits(m, t, writes, cells, hash, k)), writes, cells, k)
    decreases k
  {
    hide Inv, Run, WriteEdits, Allocated, Committed, Awaiting, GoodWrites, HomeAfter, PublishEdit, RecordEdit;
    if k > 0 {
      HomesRun(m, t, writes, cells, hash, k - 1);
      var s := Run(m, WriteEdits(m, t, writes, cells, hash, k - 1));
      WritesRun(m, t, writes, cells, hash, k - 1);
      WriteEditsFrom(m, t, writes, cells, hash, k);
      RunAppend(m, WriteEdits(m, t, writes, cells, hash, k - 1), OneWriteEdits(m, t, writes, cells, hash, k - 1));
      OneHome(m, s, t, writes, cells, hash, k - 1);
      forall j | 0 <= j < k - 1 ensures WritePage(writes[j]) != WritePage(writes[k - 1]) {
        DistinctPages(m, writes, j, k - 1);
      }
    }
  }

  lemma DistinctPages(m: Memory, writes: seq<PageWrite>, i: nat, j: nat)
    requires GoodWrites(m, writes) && i < j < |writes|
    ensures WritePage(writes[i]) != WritePage(writes[j])
  {
  }

  lemma OneHome(
    m: Memory, s: Memory, t: TransactionId, writes: seq<PageWrite>, cells: seq<Fresh>, hash: ContentHash, k: nat)
    requires Inv(m) && Inv(s) && GoodWrites(m, writes) && k < |writes| == |cells| && t in m.transactions
    requires Awaiting(m, s, t, writes, cells, k) && Allocated(m, cells)
    ensures writes[k].data.Some? && Backed(m, WritePage(writes[k]))
    ensures var s', p := Run(s, OneWriteEdits(m, t, writes, cells, hash, k)), WritePage(writes[k]);
            && p in s'.pages && s'.pages[p].backing == Some(HomeAfter(m, p, cells[k]))
            && (forall q: nat :: q in s.pages && q != p ==> q in s'.pages && s'.pages[q] == s.pages[q])
  {
    hide Inv, Run, Apply, Allocated, Enabled, AmongWrites, FindDependency;
    GoodAt(m, writes, k);
    var p, bytes := WritePage(writes[k]), writes[k].data.value;
    var publish, record := PublishEdit(m, p, cells[k], bytes), RecordEdit(m, t, p, bytes, hash);
    PublishEnabled(m, s, t, writes, cells, k);
    NotYetAmong(m, writes, k);
    assert BackingOf(s, p) == BackingOf(m, p);
    PublishFrame(s, p, publish.copy, bytes);
    PublishedBacking(s, p, publish.copy, bytes);
    var s1 := Apply(s, publish);
    PinMoveFrame(s1, Hold(t, p));
    var s2 := Apply(s1, Hold(t, p));
    TwoEdits(s, publish, Hold(t, p));
    RunAppend(s, [publish, Hold(t, p)], record);
    NoEdits(s2);
    if record != [] {
      assert record == [record[0]];
      OneEdit(s2, record[0]);
      PinMoveFrame(s2, record[0]);
    }
  }

  lemma PublishedBacking(s: Memory, p: nat, copy: Option<Fresh>, bytes: PageBytes)
    requires Enabled(s, Publish(p, copy, bytes))
    ensures p in Apply(s, Publish(p, copy, bytes)).pages
    ensures Apply(s, Publish(p, copy, bytes)).pages[p].backing == Some(if copy.Some? then copy.value.id else BackingOf(s, p))
  {
  }

  lemma HomeIsOwned(m: Memory, t: TransactionId, writes: seq<PageWrite>, cells: seq<Fresh>, hash: ContentHash, i: nat)
    requires Inv(m) && GoodWrites(m, writes) && i < |writes| == |cells| && t in m.transactions && Allocated(m, cells)
    requires IsInternal(m, BackingOf(m, WritePage(writes[i])))
    ensures IsInternal(Run(m, WriteEdits(m, t, Withheld(m, writes), cells, hash, |writes|)), HomeAfter(m, WritePage(writes[i]), cells[i]))
  {
    hide Inv, Run, WriteEdits, Allocated, Withheld, HomeAfter, CopiesOwed, Pinned, Targets, GoodWrites, IsInternal;
    GoodAt(m, writes, i);
    NonePinned(m);
    SplitRun(m, [], t, writes, cells, hash, |writes|);
    OwedHome(m, t, writes, cells, |writes|, i);
    var owed := CopiesOwed(m, t, writes, cells, |writes|);
    assert [] + owed == owed;
    TargetsInternal(Run(m, WriteEdits(m, t, Withheld(m, writes), cells, hash, |writes|)), owed,
                    HomeAfter(m, WritePage(writes[i]), cells[i]));
  }

  /** Before any owed byte is copied, each owned page written still shows what it showed before the commit. */
  lemma HomeHolds(m: Memory, t: TransactionId, writes: seq<PageWrite>, cells: seq<Fresh>, hash: ContentHash, i: nat)
    requires Inv(m) && GoodWrites(m, writes) && i < |writes| == |cells| && t in m.transactions && Allocated(m, cells)
    requires IsInternal(m, BackingOf(m, WritePage(writes[i]))) && Loadable(m, WritePage(writes[i]))
    ensures var s, b :=
                Run(m, WriteEdits(m, t, Withheld(m, writes), cells, hash, |writes|)), HomeAfter(m, WritePage(writes[i]), cells[i]);
            IsInternal(s, b) && Contents(s, b) == LoadPage(m, WritePage(writes[i]))
  {
    hide Inv, Run, WriteEdits, Allocated, Withheld, HomeAfter, Awaiting, OneStorage, LastWriter, AmongWrites, Shares, GoodWrites;
    var n, held, p := |writes|, Withheld(m, writes), WritePage(writes[i]);
    WritesRun(m, t, held, cells, hash, n);
    HomesRun(m, t, held, cells, hash, n);
    assert WritePage(held[i]) == p;
    HeldContent(m, writes, n, n, p);
    HomeIsOwned(m, t, writes, cells, hash, i);
  }

  ghost predicate Targets(copies: seq<Copy>, b: BackingId) {
    exists j :: 0 <= j < |copies| && copies[j].backing == b
  }

  lemma TargetsAppend(copies: seq<Copy>, more: seq<Copy>, b: BackingId)
    requires Targets(copies, b) || Targets(more, b)
    ensures Targets(copies + more, b)
  {
    if Targets(copies, b) {
      var j :| 0 <= j < |copies| && copies[j].backing == b;
      assert (copies + more)[j].backing == b;
    } else {
      var j :| 0 <= j < |more| && more[j].backing == b;
      assert (copies + more)[|copies| + j].backing == b;
    }
  }

  lemma TargetsInternal(s: Memory, copies: seq<Copy>, b: BackingId)
    requires Pinned(s, copies) && Targets(copies, b)
    ensures IsInternal(s, b)
  {
  }

  lemma {:induction false} OwedHome(m: Memory, t: TransactionId, writes: seq<PageWrite>, cells: seq<Fresh>, n: nat, i: nat)
    requires GoodWrites(m, writes) && i < n <= |writes| == |cells| && IsInternal(m, BackingOf(m, WritePage(writes[i])))
    ensures Targets(CopiesOwed(m, t, writes, cells, n), HomeAfter(m, WritePage(writes[i]), cells[i]))
    decreases n
  {
    hide HomeAfter;
    var b := HomeAfter(m, WritePage(writes[i]), cells[i]);
    var prior, last := CopiesOwed(m, t, writes, cells, n - 1), CopyOwed(m, t, writes, cells, n - 1);
    if i == n - 1 {
      assert last[0].backing == b;
    } else {
      OwedHome(m, t, writes, cells, n - 1, i);
    }
    TargetsAppend(prior, last, b);
  }

  /** The storage about to be copied to: owned, and holding what `Before` says. */
  lemma CopyTarget(
    m: Memory, s: Memory, t: TransactionId, writes: seq<PageWrite>, cells: seq<Fresh>, hash: ContentHash, i: nat)
    requires Inv(m) && t in m.transactions && GoodWrites(m, writes) && i < |writes| == |cells| && Allocated(m, cells)
    requires s == Run(m, WriteEdits(m, t, Withheld(m, writes), cells, hash, |writes|))
    requires IsInternal(m, BackingOf(m, WritePage(writes[i])))
    ensures writes[i].data.Some? && Loadable(m, WritePage(writes[i]))
    ensures var b := HomeAfter(m, WritePage(writes[i]), cells[i]);
            var z := Settled(s, CopiesOwed(m, t, writes, cells, i));
            && ReadableBacking(z, b) && Contents(z, b) == Before(m, writes, i)
            && SetBytes(z, b, writes[i].data.value)
               == Settled(s, CopiesOwed(m, t, writes, cells, i) + CopyOwed(m, t, writes, cells, i))
  {
    hide Inv, Run, WriteEdits, Allocated, CopiesOwed, LastCopy, LastWriter, OneStorage, AmongWrites;
    var p, b, owed := WritePage(writes[i]), HomeAfter(m, WritePage(writes[i]), cells[i]), CopiesOwed(m, t, writes, cells, i);
    InvLoadable(m, p);
    HomeHolds(m, t, writes, cells, hash, i);
    SetSettles(s, owed, Copy(t, b, writes[i].data.value, 0));
    LastOwedIsLastWriter(m, t, writes, cells, i, i);
  }

  lemma CheckWritesFrom(m: Memory, writes: seq<PageWrite>, k: nat)
    requires k <= |writes|
    ensures CheckWrites(m, writes, k)
         == if k == |writes| then Ok
            else if WriteError(m, writes, k) != Ok then WriteError(m, writes, k)
            else CheckWrites(m, writes, k + 1)
  {
  }

  lemma FirstObstacleFrom(m: Memory, writes: seq<PageWrite>, grants: seq<bool>, k: nat)
    requires k <= |writes| == |grants|
    ensures FirstObstacle(m, writes, grants, k)
         == if k == |writes| then Clear
            else if WritePage(writes[k]) in m.pages && m.pages[WritePage(writes[k])].protection.guard then Guarded(k)
            else if Copies(m, WritePage(writes[k])) && !grants[k] then NoCopy(k)
            else FirstObstacle(m, writes, grants, k + 1)
  {
  }

  lemma GuardEditsRun(m: Memory, m1: Memory, t: TransactionId, p: nat)
    requires t in m.transactions && Backed(m, p) && m1 == GuardCleared(m, p)
    ensures p in m1.pages && t in m1.transactions && m1.transactions == m.transactions
    ensures var i := FindDependency(m.transactions[t].dependencies, p);
            Run(m, GuardEdits(m, t, p))
            == if i.None? then m1
               else RefreshGuardPin(m1, t, i.value, m.transactions[t].dependencies[i.value].contentHash)
  {
    hide Run, FindDependency, Unguarded;
    var ds := m.transactions[t].dependencies;
    var i := FindDependency(ds, p);
    var protect := [Edit.Protect(p, Unguarded(m.pages[p].protection))];
    var record := if i.None? then [] else [RefreshGuard(t, i.value, ds[i.value].contentHash)];
    ClearGuard(m, p);
    NoEdits(m1);
    RunAppend(m, protect, record);
    if i.Some? {
      OneEdit(m1, record[0]);
    }
  }

  /** The edits of the k-th write. */
  ghost function OneWriteEdits(
    m: Memory, t: TransactionId, writes: seq<PageWrite>, cells: seq<Fresh>, hash: ContentHash, k: nat): seq<Edit>
    requires t in m.transactions && GoodWrites(m, writes) && k < |writes| == |cells|
  {
    var p, bytes := WritePage(writes[k]), writes[k].data.value;
    [PublishEdit(m, p, cells[k], bytes), Hold(t, p)] + RecordEdit(m, t, p, bytes, hash)
  }

  lemma WriteEditsFrom(
    m: Memory, t: TransactionId, writes: seq<PageWrite>, cells: seq<Fresh>, hash: ContentHash, k: nat)
    requires t in m.transactions && GoodWrites(m, writes) && k <= |writes| == |cells|
    ensures WriteEdits(m, t, writes, cells, hash, k)
         == if k == 0 then []
            else WriteEdits(m, t, writes, cells, hash, k - 1) + OneWriteEdits(m, t, writes, cells, hash, k - 1)
  {
    hide PublishEdit, RecordEdit;
  }

  /** Where each page written so far now lives, and whether its bytes are there already. */
  ghost predicate HomesOf(m: Memory, writes: seq<PageWrite>, cells: seq<Fresh>, homes: seq<BackingId>, copied: seq<bool>)
    requires GoodWrites(m, writes) && |writes| == |cells|
  {
    && |homes| == |copied| <= |writes|
    && forall i :: 0 <= i < |homes| ==>
         && homes[i] == HomeAfter(m, WritePage(writes[i]), cells[i])
         && (copied[i] <==> !IsInternal(m, BackingOf(m, WritePage(writes[i]))))
  }

  lemma NoHomes(m: Memory, writes: seq<PageWrite>, cells: seq<Fresh>)
    requires GoodWrites(m, writes) && |writes| == |cells|
    ensures HomesOf(m, writes, cells, [], [])
  {
  }

  lemma HomesGrow(m: Memory, writes: seq<PageWrite>, cells: seq<Fresh>, homes: seq<BackingId>, copied: seq<bool>, home: BackingId,
                  external: bool)
    requires GoodWrites(m, writes) && |writes| == |cells| && HomesOf(m, writes, cells, homes, copied) && |homes| < |writes|
    requires home == HomeAfter(m, WritePage(writes[|homes|]), cells[|homes|])
    requires external <==> !IsInternal(m, BackingOf(m, WritePage(writes[|homes|])))
    ensures HomesOf(m, writes, cells, homes + [home], copied + [external])
  {
  }

  /** What the page of the i-th write holds just before it is written: the data of the last write that got there. */
  ghost function Before(m: Memory, writes: seq<PageWrite>, i: nat): PageBytes
    requires GoodWrites(m, writes) && i < |writes| && Loadable(m, WritePage(writes[i]))
  {
    var w := LastWriter(m, writes, |writes|, i, WritePage(writes[i]));
    if w.None? then LoadPage(m, WritePage(writes[i])) else writes[w.value].data.value
  }

  /** The bytes that the first `k` writes change, counting those to caller-owned pages or those to owned ones. */
  ghost function BytesChanged(m: Memory, writes: seq<PageWrite>, k: nat, external: bool): nat
    requires Inv(m) && GoodWrites(m, writes) && k <= |writes|
  {
    if k == 0 then 0
    else
      var p := WritePage(writes[k - 1]);
      InvLoadable(m, p);
      BytesChanged(m, writes, k - 1, external)
      + if IsInternal(m, BackingOf(m, p)) == external then 0
        else LINE * DifferingLines(Before(m, writes, k - 1), writes[k - 1].data.value, LINES)
  }

  lemma BytesChangedFrom(m: Memory, writes: seq<PageWrite>, k: nat, external: bool)
    requires Inv(m) && GoodWrites(m, writes) && k <= |writes|
    ensures k > 0 ==> Loadable(m, WritePage(writes[k - 1]))
    ensures BytesChanged(m, writes, k, external)
         == if k == 0 then 0
            else BytesChanged(m, writes, k - 1, external)
                 + if IsInternal(m, BackingOf(m, WritePage(writes[k - 1]))) == external then 0
                   else LINE * DifferingLines(Before(m, writes, k - 1), writes[k - 1].data.value, LINES)
  {
    hide Inv, DifferingLines, Before;
    if k > 0 {
      InvLoadable(m, WritePage(writes[k - 1]));
    }
  }

  /** The data of writes that share storage with an owned page was held back, so the page still shows its own bytes. */
  lemma {:induction false} HeldContent(m: Memory, writes: seq<PageWrite>, k: nat, n: nat, q: nat)
    requires Inv(m) && GoodWrites(m, writes) && n <= |writes| && Loadable(m, q)
    ensures var w := LastWriter(m, Withheld(m, writes), k, n, q);
            && LastWriter(m, writes, k, n, q) == w
            && (w.Some? && IsInternal(m, BackingOf(m, q)) ==> Withheld(m, writes)[w.value].data.value == LoadPage(m, q))
            && (w.Some? && !IsInternal(m, BackingOf(m, q)) ==> Withheld(m, writes)[w.value] == writes[w.value])
    decreases n
  {
    hide Inv, GoodWrites;
    var held := Withheld(m, writes);
    SameAmong(writes, held);
    if n > 0 {
      var p := WritePage(writes[n - 1]);
      assert WritePage(held[n - 1]) == p;
      assert OneStorage(m, held, k, p, q) <==> OneStorage(m, writes, k, p, q);
      GoodAt(m, writes, n - 1);
      HeldContent(m, writes, k, n - 1, q);
    }
  }

  lemma SameAmong(writes: seq<PageWrite>, held: seq<PageWrite>)
    requires |held| == |writes| && forall i :: 0 <= i < |held| ==> held[i].address == writes[i].address
    ensures forall k: nat, p: nat :: AmongWrites(held, k, p) <==> AmongWrites(writes, k, p)
  {
    forall k: nat, p: nat ensures AmongWrites(held, k, p) <==> AmongWrites(writes, k, p) {
      if AmongWrites(held, k, p) {
        var i: nat :| i < k && i < |held| && WritePage(held[i]) == p;
        assert WritePage(writes[i]) == p;
      }
      if AmongWrites(writes, k, p) {
        var i: nat :| i < k && i < |writes| && WritePage(writes[i]) == p;
        assert WritePage(held[i]) == p;
      }
    }
  }

  lemma {:induction false} SameRecordIndex(ds: seq<Dependency>, ds': seq<Dependency>, p: nat)
    requires |ds'| == |ds| && forall i :: 0 <= i < |ds| ==> ds'[i].page == ds[i].page
    ensures FindDependency(ds', p) == FindDependency(ds, p)
    decreases |ds|
  {
    if ds != [] {
      SameRecordIndex(ds[1..], ds'[1..], p);
    }
  }

  lemma {:induction false} LastWriterLater(m: Memory, writes: seq<PageWrite>, i: nat, n: nat)
    requires GoodWrites(m, writes) && n <= i < |writes| && !Copies(m, WritePage(writes[i]))
    ensures LastWriter(m, writes, i, n, WritePage(writes[i])) == LastWriter(m, writes, |writes|, n, WritePage(writes[i]))
    decreases n
  {
    if n > 0 {
      var p, q := WritePage(writes[n - 1]), WritePage(writes[i]);
      assert p != q;
      assert AmongWrites(writes, i, p) && AmongWrites(writes, |writes|, p);
      assert OneStorage(m, writes, i, p, q) <==> OneStorage(m, writes, |writes|, p, q);
      LastWriterLater(m, writes, i, n - 1);
    }
  }

  /** The page about to be written: as it was, showing what `Before` says, and with its cell still free. */
  lemma ReadyToWrite(
    m: Memory, s: Memory, t: TransactionId, writes: seq<PageWrite>, cells: seq<Fresh>, hash: ContentHash, k: nat)
    requires Inv(m) && Inv(s) && GoodWrites(m, writes) && k < |writes| == |cells| && t in m.transactions && t in s.transactions
    requires Committed(m, s, Withheld(m, writes), k) && Awaiting(m, s, t, Withheld(m, writes), cells, k)
    requires Allocated(m, cells)
    ensures writes[k].data.Some? && Backed(m, WritePage(writes[k])) && Loadable(m, WritePage(writes[k]))
    ensures var p := WritePage(writes[k]); var bytes := Withheld(m, writes)[k].data.value;
            && Loadable(s, p) && IsFresh(s, cells[k])
            && (IsInternal(s, BackingOf(s, p)) <==> IsInternal(m, BackingOf(m, p)))
            && HomeAfter(s, p, cells[k]) == HomeAfter(m, p, cells[k])
            && PublishEdit(s, p, cells[k], bytes) == PublishEdit(m, p, cells[k], bytes)
            && RecordEdit(s, t, p, bytes, hash) == RecordEdit(m, t, p, bytes, hash)
            && bytes == (if IsInternal(m, BackingOf(m, p)) then LoadPage(s, p) else writes[k].data.value)
            && (!IsInternal(m, BackingOf(m, p)) ==> LoadPage(s, p) == Before(m, writes, k))
            && p in s.pages && WritePage(Withheld(m, writes)[k]) == p
  {
    hide Counted, Stamped, HostsKnown, OneStorage, AmongWrites, FindDependency, LoadPage, Shares;
    var p, held := WritePage(writes[k]), Withheld(m, writes);
    GoodAt(m, writes, k);
    NotYetAmong(m, held, k);
    assert WritePage(held[k]) == p;
    InvLoadable(m, p);
    assert Backed(s, p) && s.pages[p] == m.pages[p];
    InvLoadable(s, p);
    SameRecordIndex(m.transactions[t].dependencies, s.transactions[t].dependencies, p);
    HeldContent(m, writes, k, k, p);
    if !IsInternal(m, BackingOf(m, p)) {
      LastWriterLater(m, writes, k, k);
    }
  }

  // ---- Storing ----

  lemma SetBytesSame(m: Memory, b: BackingId)
    requires ReadableBacking(m, b)
    ensures SetBytes(m, b, Contents(m, b)) == m
  {
  }

  lemma SetBytesTwice(m: Memory, b: BackingId, x: PageBytes, y: PageBytes)
    requires ReadableBacking(m, b)
    ensures ReadableBacking(SetBytes(m, b, x), b)
    ensures SetBytes(SetBytes(m, b, x), b, y) == SetBytes(m, b, y)
  {
  }

  lemma SetBytesKeepsBackings(m: Memory, b: BackingId, x: PageBytes)
    requires ReadableBacking(m, b)
    ensures b in SetBytes(m, b, x).backings && SetBytes(m, b, x).pages == m.pages
  {
  }

  // ---- Records ----

  function FindFrom(ds: seq<Dependency>, k: nat, p: nat): Option<nat>
    requires k <= |ds|
  {
    var i := FindDependency(ds[k..], p);
    if i.None? then None else Some(k + i.value)
  }

  lemma FindStep(ds: seq<Dependency>, k: nat, p: nat)
    requires k < |ds| && ds[k].page != p
    ensures FindFrom(ds, k, p) == FindFrom(ds, k + 1, p)
  {
    assert ds[k..][0] == ds[k] && ds[k..][1..] == ds[k + 1..];
  }

  lemma FoundAt(ds: seq<Dependency>, k: nat, p: nat)
    requires k < |ds| && ds[k].page == p
    ensures FindFrom(ds, k, p) == Some(k)
    ensures FindFrom(ds, 0, p) == FindDependency(ds, p)
  {
    assert ds[k..][0] == ds[k] && ds[0..] == ds;
    FindDependencyFrom(ds, p);
  }

  lemma FindNone(ds: seq<Dependency>, p: nat)
    ensures FindFrom(ds, |ds|, p) == None
    ensures FindFrom(ds, 0, p) == FindDependency(ds, p)
  {
    assert ds[|ds|..] == [];
    FindDependencyFrom(ds, p);
  }

  lemma FindDependencyFrom(ds: seq<Dependency>, p: nat)
    ensures FindFrom(ds, 0, p) == FindDependency(ds, p)
  {
    assert ds[0..] == ds;
  }

  // ---- Publication ----

  lemma PreparedStorage(m: Memory, p: nat, copy: Option<Fresh>)
    requires Enabled(m, Publish(p, copy, ZeroPage()))
    ensures var x := Prepared(m, p, copy);
            && Backed(x, p) && ReadableBacking(x, BackingOf(x, p))
            && (IsInternal(x, BackingOf(x, p)) <==> IsInternal(m, BackingOf(m, p)))
            && LoadPage(x, p) == LoadPage(m, p)
  {
  }

  lemma PublishedPage(m: Memory, t: TransactionId, p: nat, copy: Option<Fresh>, bytes: PageBytes)
    requires Inv(m) && Enabled(m, Publish(p, copy, bytes)) && t in m.transactions
    ensures Apply(m, Publish(p, copy, bytes)) == GuestMemory.PublishPage(m, p, copy, bytes)
    ensures var s := GuestMemory.PublishPage(m, p, copy, bytes);
            && Backed(s, p) && t in s.transactions && s.transactions == m.transactions
            && BackingOf(s, p) == if copy.Some? then copy.value.id else BackingOf(m, p)
  {
  }

  lemma PublishThenHold(m: Memory, t: TransactionId, p: nat, copy: Option<Fresh>, bytes: PageBytes)
    requires Inv(m) && Enabled(m, Publish(p, copy, bytes)) && t in m.transactions
    ensures var s := GuestMemory.PublishPage(m, p, copy, bytes);
            && Backed(s, p) && t in s.transactions
            && Apply(s, Hold(t, p)) == HoldPage(s, t, p)
            && HoldPage(s, t, p).transactions.Keys == m.transactions.Keys
            && t in HoldPage(s, t, p).transactions
            && HoldPage(s, t, p).transactions[t].dependencies == m.transactions[t].dependencies
            && Backed(HoldPage(s, t, p), p)
  {
    hide GuestMemory.PublishPage, Inv;
    PublishedPage(m, t, p, copy, bytes);
  }

  lemma RefreshAsEdit(s: Memory, t: TransactionId, i: nat, contentHash: nat)
    requires HasDependency(s, t, i) && Backed(s, s.transactions[t].dependencies[i].page)
    ensures Apply(s, Refresh(t, i, contentHash)) == RefreshPin(s, t, i, contentHash)
  {
  }

  /** Every page of the range that a write must copy has been granted a backing. */
  ghost predicate CopiesGranted(m: Memory, first: nat, grants: seq<bool>) {
    forall k :: 0 <= k < |grants| && Copies(m, first + k) ==> grants[k]
  }

  lemma RangeBacked(m: Memory, first: nat, records: seq<PageNode>)
    requires AllLoadable(m, first, |records|) && forall k :: 0 <= k < |records| ==> records[k].number == first + k
    ensures forall k :: 0 <= k < |records| ==> Backed(m, records[k].number)
  {
    forall k | 0 <= k < |records| ensures Backed(m, records[k].number) {
      FewerLoadable(m, first, |records|, k);
    }
  }

  /** Whether some record at or after the k-th is stale, and if so which page the first of them is of. */
  ghost function StaleFrom(m: Memory, ds: seq<Dependency>, k: nat, hash: ContentHash): Option<nat>
    requires k <= |ds|
  {
    var i := FirstStale(m, ds[k..], hash);
    if i.None? then None else Some(ds[k + i.value].page)
  }

  lemma StaleStep(m: Memory, ds: seq<Dependency>, k: nat, hash: ContentHash)
    requires k < |ds| && Current(m, ds[k], hash)
    ensures StaleFrom(m, ds, k + 1, hash) == StaleFrom(m, ds, k, hash)
  {
    assert ds[k..][0] == ds[k] && ds[k..][1..] == ds[k + 1..];
  }

  lemma StaleIsFirst(m: Memory, ds: seq<Dependency>, k: nat, hash: ContentHash)
    requires k < |ds| && !Current(m, ds[k], hash)
    ensures StaleFrom(m, ds, k, hash) == Some(ds[k].page)
    ensures StaleFrom(m, ds, 0, hash) == Some(ds[k].page) ==>
              && FirstStale(m, ds, hash).Some?
              && ds[FirstStale(m, ds, hash).value].page == ds[k].page
  {
    assert ds[k..][0] == ds[k] && ds[0..] == ds;
  }

  lemma StaleNone(m: Memory, ds: seq<Dependency>, hash: ContentHash)
    ensures StaleFrom(m, ds, |ds|, hash) == None
    ensures StaleFrom(m, ds, 0, hash) == None ==> FirstStale(m, ds, hash).None?
  {
    assert ds[|ds|..] == [] && ds[0..] == ds;
  }

  lemma CheckAccessFrom(m: Memory, first: nat, count: nat, write: bool, execute: bool)
    ensures CheckAccess(m, first, count, write, execute)
         == if count == 0 then Ok
            else if AccessError(m, first, write, execute) != Ok then AccessError(m, first, write, execute)
            else CheckAccess(m, first + 1, count - 1, write, execute)
  {
  }

  lemma FirstGuardFrom(m: Memory, first: nat, count: nat)
    ensures FirstGuard(m, first, count)
         == if count == 0 then None
            else if first in m.pages && m.pages[first].protection.guard then Some(first)
            else FirstGuard(m, first + 1, count - 1)
  {
  }

  lemma PromoteEditsFrom(m: Memory, first: nat, cells: seq<Fresh>, write: bool, k: nat)
    requires k <= |cells|
    ensures PromoteEdits(m, first, cells, write, k)
         == if k == 0 then []
            else PromoteEdits(m, first, cells, write, k - 1) + PromoteEdit(m, first + (k - 1), write, cells[k - 1])
  {
  }

  /** One page's promotion, as a change of state. */
  lemma PromoteResult(m: Memory, p: nat, write: bool, cell: Fresh)
    requires Backed(m, p) && (write && Copies(m, p) ==> Enabled(m, Detach(p, cell)))
    ensures Run(m, PromoteEdit(m, p, write, cell))
         == if !IsWriteCopy(m.pages[p].protection) then m
            else if m.backings[BackingOf(m, p)].data.External? then WithProtection(m, p, Promoted(m.pages[p].protection))
            else if write then GuestMemory.TouchPage(Detached(m, p, cell), p)
            else m
  {
    hide Run;
    NoEdits(m);
    var edits := PromoteEdit(m, p, write, cell);
    if edits != [] {
      OneEdit(m, edits[0]);
      assert edits == [edits[0]];
    }
  }

  /** The page about to be promoted is as it was before the access. */
  lemma NextPromotion(m: Memory, s: Memory, first: nat, cells: seq<Fresh>, write: bool, k: nat)
    requires Inv(m) && Inv(s) && ContentKept(m, s) && PromotedPages(m, s, first, cells, write, k)
    requires k < |cells| && Loadable(m, first + k) && (write ==> Allocated(m, cells))
    ensures Backed(s, first + k)
    ensures PromoteEdit(s, first + k, write, cells[k]) == PromoteEdit(m, first + k, write, cells[k])
    ensures write && Copies(s, first + k) ==> Enabled(s, Detach(first + k, cells[k]))
  {
    hide Counted, Stamped;
    assert Loadable(s, first + k);
    assert !InRange(first + k, first, k);
    assert s.pages[first + k] == m.pages[first + k];
  }

  lemma AllocatedUnused(m: Memory, cells: seq<Fresh>)
    requires Allocated(m, cells)
    ensures forall j :: 0 <= j < |cells| ==> cells[j].id !in m.backings
  {
  }

  lemma StartAt(a: nat, n: nat, k: nat)
    requires k <= Span(a, n)
    ensures Start(a, n, 0) == 0
    ensures k < Span(a, n) ==>
              && (a + Start(a, n, k)) % PAGE_SIZE == Offset(a, k)
              && Start(a, n, k + 1) == Start(a, n, k) +
                   (if PAGE_SIZE - Offset(a, k) > n - Start(a, n, k) then n - Start(a, n, k) else PAGE_SIZE - Offset(a, k))
  {
    if 0 < k < Span(a, n) {
      var q, r := a / PAGE_SIZE, a % PAGE_SIZE;
      assert a + (k * PAGE_SIZE - r) == (q + k) * PAGE_SIZE;
    }
  }

  lemma StoreResult(m: Memory, p: nat, offset: nat, bytes: seq<Byte>)
    requires Loadable(m, p) && offset + |bytes| <= PAGE_SIZE
    ensures Apply(m, Store(p, offset, bytes)) == StoreThrough(m, p, Overwrite(LoadPage(m, p), offset, bytes))
  {
  }

  lemma OneMoreLoadable(m: Memory, first: nat, k: nat)
    requires AllLoadable(m, first, k) && Loadable(m, first + k)
    ensures AllLoadable(m, first, k + 1)
  {
    StepRange(first, k);
  }

  lemma EditCount(first: nat, source: nat, count: nat, protection: Protection)
    ensures |AliasEdits(first, source, count, protection)| == count
  {
  }

  lemma NumbersOf(records: seq<PageNode>, first: nat, count: nat, target: map<nat, Page>)
    requires RecordsOf(records, first, count, target) && |records| == count
    ensures forall j :: 0 <= j < |records| ==> records[j].number == first + (|records| - 1 - j)
  {
  }

  lemma BurntByAliases(m: Memory, s: Memory, first: nat, source: nat, count: nat, protection: Protection, k: nat)
    requires AliasEffect(m, s, first, source, count, protection, k)
    ensures s.(pages := m.pages, backings := m.backings) == m.(generation := m.generation + k)
  {
  }

  lemma AliasesAdded(
    m: Memory, r: Memory, records: seq<PageNode>, first: nat, source: nat, count: nat, protection: Protection)
    requires AliasEffect(m, r, first, source, count, protection, count) && |records| == count
    requires RecordsOf(records, first, count, r.pages)
    requires forall p: nat :: InRange(p, first, count) ==> p !in m.pages
    ensures r.(pages := WithRecords(m.pages, records)) == r
  {
    AllAdded(m, r.pages, records, first, count);
  }

  lemma OneMoreAlias(
    m: Memory, s: Memory, first: nat, source: nat, count: nat, protection: Protection, k: nat)
    requires AliasEffect(m, s, first, source, count, protection, k) && k < count && Backed(m, source + k)
    requires forall p: nat :: InRange(p, first, count) ==> p !in m.pages
    ensures Backed(s.(pages := m.pages), source + k) && BackingOf(s.(pages := m.pages), source + k) == BackingOf(m, source + k)
    ensures var s' := Apply(s, Alias(first + k, first, count, source + k, protection));
            var t := AliasPage(s.(pages := m.pages), first + k, first, count, BackingOf(m, source + k), protection);
            && s'.(pages := m.pages) == t.(pages := m.pages)
            && s'.pages == s.pages[first + k := t.pages[first + k]]
            && first + k !in s.pages
  {
    hide AliasEffect, Retain;
    assert InRange(first + k, first, count);
    AliasStep(m, s, first, source, count, protection, k);
    AliasedSoFar(m, s, first, source, count, protection, k);
    assert Apply(s, Alias(first + k, first, count, source + k, protection))
        == AliasPage(s, first + k, first, count, BackingOf(m, source + k), protection);
  }

  lemma AliasedSoFar(m: Memory, s: Memory, first: nat, source: nat, count: nat, protection: Protection, k: nat)
    requires AliasEffect(m, s, first, source, count, protection, k) && Backed(m, source + k)
    requires first + k !in m.pages
    ensures Backed(s, source + k) && s.pages[source + k] == m.pages[source + k] && first + k !in s.pages
    ensures BackingOf(m, source + k) in s.backings
  {
  }

  lemma RecordsGrow(
    record: PageNode, records: seq<PageNode>, first: nat, k: nat, pages: map<nat, Page>, more: map<nat, Page>)
    requires RecordsOf(records, first, k, pages) && |records| == k
    requires record.number == first + k && first + k !in pages && more == pages[first + k := record.value]
    ensures RecordsOf([record] + records, first, k + 1, more)
  {
    var all := [record] + records;
    forall j | 0 <= j < |all|
      ensures all[j].number == first + (k - j) && all[j].number in more && all[j].value == more[all[j].number]
    {
      assert j > 0 ==> all[j] == records[j - 1];
    }
  }

  /** Dropping the reference an alias took restores the backings from before it. */
  lemma AliasUndone(m: Memory, s: Memory, first: nat, source: nat, count: nat, protection: Protection, k: nat)
    requires Counted(s) && AliasEffect(m, s, first, source, count, protection, k) && k < count && Backed(m, source + k)
    requires forall p: nat :: InRange(p, first, count) ==> p !in m.pages
    ensures Drop(Apply(s, Alias(first + k, first, count, source + k, protection)).backings, BackingOf(m, source + k)) == s.backings
  {
    hide AliasEffect, Counted, Apply, Drop, Retain;
    OneMoreAlias(m, s, first, source, count, protection, k);
    CountedLive(s, PageRef(0));
    RetainDropped(s.backings, BackingOf(m, source + k));
  }

  lemma AliasedPage(m: Memory, r: Memory, first: nat, source: nat, count: nat, protection: Protection, k: nat, n: nat)
    requires AliasEffect(m, r, first, source, count, protection, n) && k < n
    ensures first + k in r.pages && source + k in m.pages && r.pages[first + k].backing == m.pages[source + k].backing
  {
    assert InRange(first + k, first, n);
    assert Counterpart(first + k, first, source) == source + k;
  }

  lemma RetainDropped(backings: map<BackingId, Backing>, b: BackingId)
    requires b in backings && backings[b].refs > 0
    ensures Drop(Retain(backings, b), b) == backings
  {
  }

  lemma SidesMapped(m: Memory, first: nat, count: nat)
    requires Partitioned(m) && first in m.pages
    ensures AllMapped(m, m.pages[first].base, m.pages[first].size)
  {
    ReservationWhole(m, first);
  }

  lemma SomeMapped(m: Memory, base: nat, size: nat, first: nat, count: nat)
    requires AllMapped(m, base, size) && base <= first && first + count <= base + size
    ensures AllMapped(m, first, count)
  {
    assert forall p: nat :: InRange(p, first, count) ==> InRange(p, base, size);
  }

  lemma StillThere(m: Memory, s: Memory, from: nat, to: nat, base: nat, size: nat)
    requires AllMapped(m, base, size) && s.pages.Keys == m.pages.Keys
    ensures AllMapped(s, base, size)
  {
  }

  lemma ThreeRuns(m: Memory, first: seq<Edit>, second: seq<Edit>, third: seq<Edit>)
    ensures Run(m, first + second + third) == Run(Run(Run(m, first), second), third)
  {
    RunAppend(m, first + second, third);
    RunAppend(m, first, second);
  }

  lemma RestIsDifference(pages: map<nat, Page>, rest: map<nat, Page>, first: nat, count: nat, gone: set<nat>)
    requires rest == map p | p in pages && !(first <= p < first + count) :: pages[p]
    requires forall p: nat :: p in gone <==> InRange(p, first, count)
    ensures rest == pages - gone
  {
  }

  function Numbers(records: seq<PageNode>): seq<nat> {
    seq(|records|, i requires 0 <= i < |records| => records[i].number)
  }

  ghost function AllDropped(backings: map<BackingId, Backing>, records: seq<PageNode>): map<BackingId, Backing>
    reads records`value
  {
    if records == [] then backings
    else DropOption(AllDropped(backings, records[..|records| - 1]), records[|records| - 1].value.backing)
  }

  lemma {:induction false} RemovedState(m: Memory, records: seq<PageNode>)
    requires DistinctMapped(m, Numbers(records))
    requires forall j :: 0 <= j < |records| ==> records[j].number in m.pages && m.pages[records[j].number] == records[j].value
    ensures Run(m, RemoveEdits(Numbers(records)))
         == m.(pages := m.pages - SetOf(Numbers(records)), backings := AllDropped(m.backings, records))
    decreases |records|
  {
    hide Apply;
    var k := |records| - 1;
    if records == [] {
      assert RemoveEdits(Numbers(records)) == [];
      assert m.pages - {} == m.pages;
    } else {
      var fewer, p := records[..k], records[k].number;
      assert Numbers(fewer) == Numbers(records)[..k];
      RemovedState(m, fewer);
      assert RemoveEdits(Numbers(records)) == RemoveEdits(Numbers(fewer)) + [Edit.Remove(p)];
      RunSnoc(m, RemoveEdits(Numbers(fewer)), Edit.Remove(p));
      assert Numbers(records) == Numbers(fewer) + [p];
      assert SetOf(Numbers(records)) == SetOf(Numbers(fewer)) + {p};
      NotBefore(m, records, k);
      OneRemoved(m, Run(m, RemoveEdits(Numbers(fewer))), SetOf(Numbers(fewer)), p);
    }
  }

  lemma NotBefore(m: Memory, records: seq<PageNode>, k: nat)
    requires DistinctMapped(m, Numbers(records)) && k + 1 == |records|
    ensures records[k].number !in SetOf(Numbers(records[..k]))
  {
    assert Numbers(records)[k] == records[k].number;
    assert forall j :: 0 <= j < k ==> Numbers(records[..k])[j] == Numbers(records)[j];
  }

  lemma OneRemoved(m: Memory, s: Memory, gone: set<nat>, p: nat)
    requires p in m.pages && p !in gone && s.pages == m.pages - gone
    ensures Apply(s, Edit.Remove(p)) == s.(pages := m.pages - (gone + {p}), backings := DropOption(s.backings, m.pages[p].backing))
  {
    assert m.pages - (gone + {p}) == m.pages - gone - {p};
  }

  lemma {:induction false} BurnsAdd(m: Memory, count: nat)
    ensures Run(m, Burns(count)) == m.(generation := m.generation + count)
    decreases count
  {
    if count == 0 {
      assert Burns(0) == [];
    } else {
      assert Burns(count)[1..] == Burns(count - 1);
      BurnsAdd(Apply(m, Burn), count - 1);
    }
  }

  lemma WithNoRecords(pages: map<nat, Page>)
    ensures WithRecords(pages, []) == pages
  {
  }

  lemma WithOneRecord(pages: map<nat, Page>, records: seq<PageNode>, n: PageNode)
    ensures WithRecords(pages, records + [n]) == WithRecords(pages, records)[n.number := n.value]
  {
    assert (records + [n])[..|records|] == records;
  }

  /** Records for the last pages of a range, last page first, as the pages are in `target`. */
  ghost predicate RecordsOf(records: seq<PageNode>, first: nat, count: nat, target: map<nat, Page>)
    reads records`value
  {
    && |records| <= count
    && forall j :: 0 <= j < |records| ==>
         && records[j].number == first + (count - 1 - j)
         && records[j].number in target && records[j].value == target[records[j].number]
  }

  lemma {:induction false} WithRecordsOf(
    pages: map<nat, Page>, records: seq<PageNode>, first: nat, count: nat, target: map<nat, Page>)
    requires RecordsOf(records, first, count, target)
    requires forall p: nat :: InRange(p, first, count) ==> p !in pages
    ensures var r, k := WithRecords(pages, records), |records|;
            && (forall p: nat :: p in r <==> p in pages || InRange(p, first + (count - k), k))
            && (forall p: nat :: p in pages ==> r[p] == pages[p])
            && (forall p: nat :: InRange(p, first + (count - k), k) ==> p in target && r[p] == target[p])
    decreases |records|
  {
    if records != [] {
      WithRecordsOf(pages, records[..|records| - 1], first, count, target);
    }
  }

  /** A range added to the table, all of it: the pages are as they should be. */
  lemma AllAdded(m: Memory, target: map<nat, Page>, records: seq<PageNode>, first: nat, count: nat)
    requires |records| == count && RecordsOf(records, first, count, target)
    requires forall p: nat :: InRange(p, first, count) ==> p !in m.pages
    requires forall p: nat :: p in target <==> p in m.pages || InRange(p, first, count)
    requires forall p: nat :: p in m.pages ==> target[p] == m.pages[p]
    ensures WithRecords(m.pages, records) == target
  {
    WithRecordsOf(m.pages, records, first, count, target);
  }

  lemma ReservedRecords(m: Memory, r: Memory, records: seq<PageNode>, first: nat, count: nat)
    requires ReserveEffect(m, r, first, count, count) && |records| == count
    requires forall p: nat :: InRange(p, first, count) ==> p !in m.pages
    requires forall j :: 0 <= j < count ==>
               && records[j].number == first + (count - 1 - j)
               && records[j].value == Page(first, count, None, Protection(0, false), m.generation + (count - j))
    ensures r == m.(generation := m.generation + count, pages := WithRecords(m.pages, records))
  {
    forall j | 0 <= j < count ensures InRange(records[j].number, first, count) {
    }
    AllAdded(m, r.pages, records, first, count);
  }

  /** A page map with records added to it. */
  ghost function WithRecords(pages: map<nat, Page>, records: seq<PageNode>): map<nat, Page>
    reads records`value
  {
    if records == [] then pages
    else
      var n := records[|records| - 1];
      WithRecords(pages, records[..|records| - 1])[n.number := n.value]
  }

  ghost predicate ProtectionsSet(m: Memory, s: Memory, first: nat, count: nat, protection: Protection) {
    && s == m.(pages := s.pages) && s.pages.Keys == m.pages.Keys
    && (forall p: nat :: p in m.pages ==>
          s.pages[p] == if InRange(p, first, count) then m.pages[p].(protection := protection) else m.pages[p])
  }

  ghost predicate PagesTouched(m: Memory, s: Memory, first: nat, count: nat) {
    && s == m.(pages := s.pages, generation := m.generation + count) && s.pages.Keys == m.pages.Keys
    && (forall p: nat :: p in m.pages ==>
          s.pages[p] == if InRange(p, first, count) then m.pages[p].(generation := m.generation + (p - first) + 1)
                        else m.pages[p])
  }

  lemma StillMapped(m: Memory, s: Memory, first: nat, count: nat, protection: Protection)
    requires ProtectionsSet(m, s, first, count, protection) && AllMapped(m, first, count)
    ensures AllMapped(s, first, count)
  {
  }

  lemma BothLoops(m: Memory, s: Memory, m': Memory, first: nat, count: nat, protection: Protection)
    requires ProtectionsSet(m, s, first, count, protection) && PagesTouched(s, m', first, count)
    ensures ProtectEffect(m, m', first, count, protection)
  {
  }
}

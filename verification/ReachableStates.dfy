/**
 Every state that calls can lead to, from the empty memory on: references are counted, stamps are bounded
 and reservations are a partition, whatever was called in whatever order and however it failed.
 */
module ReachableStates {
  import opened Options
  import opened GuestMemory
  import opened MemoryInvariants
  import opened OptimisticValidation
  import opened MappingCalls
  import opened MappingEffects
  import opened MappingTheorems
  import opened PagedAccess
  import opened TransactionCalls
  import opened CommitPages
  import opened PendingCopies
  import opened ShapeIndependence
  import opened CommitProtocol

  const EMPTY_MEMORY := Memory(map[], map[], map[], 0, map[])

  lemma EmptyIsHealthy()
    ensures Healthy(EMPTY_MEMORY)
  {
    assert forall b: BackingId :: Holders(EMPTY_MEMORY, b) == {};
  }

  /** Edits that leave every page in the reservation it is in. */
  predicate KeepsIntervals(e: Edit) {
    !e.Reserve? && !e.Alias? && !e.Remove? && !e.Rebase?
  }

  lemma PublishIntervals(m: Memory, p: nat, copy: Option<Fresh>, bytes: PageBytes)
    requires Enabled(m, Publish(p, copy, bytes))
    ensures SameIntervals(m, PublishPage(m, p, copy, bytes))
  {
    hide Overwrite;
  }

  lemma EditKeepsIntervals(m: Memory, e: Edit)
    requires KeepsIntervals(e)
    ensures SameIntervals(m, Apply(m, e))
  {
    if e.Publish? && Enabled(m, e) {
      hide PublishPage;
      PublishIntervals(m, e.page, e.copy, e.content);
    }
  }

  lemma SameTrans(m: Memory, m1: Memory, m2: Memory)
    requires SameIntervals(m, m1) && SameIntervals(m1, m2)
    ensures SameIntervals(m, m2)
  {
  }

  ghost predicate IntervalsKept(edits: seq<Edit>) {
    forall i :: 0 <= i < |edits| ==> KeepsIntervals(edits[i])
  }

  lemma {:induction false} RunKeepsIntervals(m: Memory, edits: seq<Edit>)
    requires IntervalsKept(edits)
    ensures SameIntervals(m, Run(m, edits))
    decreases |edits|
  {
    hide Apply;
    if edits != [] {
      EditKeepsIntervals(m, edits[0]);
      forall i | 0 <= i < |edits[1..]| ensures KeepsIntervals(edits[1..][i]) {
        assert KeepsIntervals(edits[i + 1]);
      }
      RunKeepsIntervals(Apply(m, edits[0]), edits[1..]);
      SameTrans(m, Apply(m, edits[0]), Run(m, edits));
    }
  }

  lemma RunKeepsHealth(m: Memory, edits: seq<Edit>)
    requires Healthy(m) && IntervalsKept(edits)
    ensures Healthy(Run(m, edits))
  {
    hide Inv, Run, Partitioned, SameIntervals;
    InvOverRun(m, edits);
    RunKeepsIntervals(m, edits);
    SameIntervalsKeepPartition(m, Run(m, edits));
  }

  // ---- Requests ----

  /** What the world outside answers a request with: unused backings, and host pages that exist. */
  ghost predicate Feasible(m: Memory, r: Request) {
    && Ready(m, r)
    && (r.CommitRange? && r.cells.Some? ==> Allocated(m, r.cells.value) && |r.cells.value| == r.n / PAGE_SIZE)
    && (r.CommitHostRange? ==>
          Allocated(m, r.granted) && |r.granted| == r.n / PAGE_SIZE && HostReady(m, Some(r.host / PAGE_SIZE), r.n / PAGE_SIZE))
    && (r.MapIdentityRange? ==>
          Allocated(m, r.granted) && |r.granted| <= r.n / PAGE_SIZE && HostReady(m, Some(r.a / PAGE_SIZE), r.n / PAGE_SIZE))
    && (r.BindKuserPage? ==> r.host / PAGE_SIZE in m.host && (r.cell.Some? ==> IsFresh(m, r.cell.value)))
  }

  lemma MappingKeepsHealth(m: Memory, r: Request, hash: ContentHash)
    requires Healthy(m) && Feasible(m, r) && !r.Access? && !OfTransaction(r) && !r.BeginTransaction? && !r.HostWrite?
    ensures Inv(m) && Healthy(Run(m, PlanOf(m, r, hash).edits))
  {
    hide Healthy, Run, Allocated, HostReady, ReserveEffect, AliasEffect, CommitEffect, RangeOk, Partitioned, Dropped, SetOf, Inv;
    HealthyIsInv(m);
    match r
    case ReserveRange(a, n, room) => ReserveCall(m, a, n, room);
    case CommitRange(a, n, protection, cells) => CommitCall(m, a, n, protection, cells);
    case CommitHostRange(a, n, host, protection, identity, records, granted) =>
      CommitExternalCall(m, a, host, n, protection, identity, records, granted);
    case DecommitRange(a, n) => DecommitCall(m, a, n);
    case ProtectRange(a, n, protection) => ProtectCall(m, a, n, protection);
    case ReleaseRange(a, n) => ReleaseCall(m, a, n);
    case UnmapRange(a, n) => UnmapCall(m, a, n);
    case AliasRange(a, source, n, protection, room) => AliasCall(m, a, source, n, protection, room);
    case MapIdentityRange(a, n, host, protection, room, granted) => MapIdentityCall(m, a, host, n, protection, room, granted);
    case BindKuserPage(host, cell) => BindKuserCall(m, host, cell);
  }

  lemma HealthyIsInv(m: Memory)
    requires Healthy(m)
    ensures Inv(m)
  {
  }

  lemma AccessKeepsIntervals(m: Memory, r: Request, hash: ContentHash)
    requires Inv(m) && Ready(m, r) && r.Access?
    ensures IntervalsKept(PlanOf(m, r, hash).edits)
  {
    hide Inv, AccessPlan, Span;
    AccessEdits(m, r.a, r.n, r.kind, r.consumeGuard, r.scratch, r.cells);
    var edits := PlanOf(m, r, hash).edits;
    forall i | 0 <= i < |edits| ensures KeepsIntervals(edits[i]) {
      assert AccessEdit(edits[i], r.a / PAGE_SIZE, Span(r.a, r.n));
    }
  }

  lemma TransactionKeepsIntervals(m: Memory, r: Request, hash: ContentHash)
    requires Inv(m) && Ready(m, r) && (OfTransaction(r) || r.BeginTransaction? || r.HostWrite?)
    ensures IntervalsKept(PlanOf(m, r, hash).edits)
  {
    hide Inv, RecordedHash, FindDependency, Current, Allowed;
  }

  lemma {:induction false} WritesKeepIntervals(
    m: Memory, t: TransactionId, writes: seq<PageWrite>, cells: seq<Fresh>, hash: ContentHash, k: nat)
    requires t in m.transactions && GoodWrites(m, writes) && k <= |writes| == |cells|
    ensures IntervalsKept(WriteEdits(m, t, writes, cells, hash, k))
    decreases k
  {
    if k > 0 {
      WritesKeepIntervals(m, t, writes, cells, hash, k - 1);
    }
  }

  lemma PublishKeepsIntervals(
    m: Memory, t: TransactionId, writes: seq<PageWrite>, granted: seq<bool>, cells: seq<Fresh>, hash: ContentHash)
    requires Inv(m) && t in m.transactions && |granted| == |cells| == |writes|
    ensures IntervalsKept(PublishPlan(m, t, writes, granted, cells, hash).edits)
  {
    hide Inv, CheckWrites, FirstStale, FindDependency, WriteEdits;
    if CheckWrites(m, writes, 0) == Ok {
      CheckedWritesAreGood(m, writes);
      WritesKeepIntervals(m, t, writes, cells, hash, |writes|);
    }
  }

  lemma LetGosKeepIntervals(t: TransactionId, count: nat)
    ensures IntervalsKept(LetGos(t, count))
  {
  }

  /** A step that can be taken in one piece with answers the outside may give. */
  ghost predicate Possible(m: Memory, step: Step) {
    CanStepWhole(m, step) && (step.Serve? ==> Feasible(m, step.request))
  }

  lemma StepKeepsHealth(m: Memory, step: Step, hash: ContentHash)
    requires Healthy(m) && Possible(m, step)
    ensures Inv(m) && Healthy(NextWhole(m, step, hash))
  {
    hide Healthy, Run, PlanOf, PublishPlan, LetGos, IntervalsKept, Inv, Ready;
    HealthyIsInv(m);
    match step
    case Serve(r) =>
      if r.Access? {
        AccessKeepsIntervals(m, r, hash);
        RunKeepsHealth(m, PlanOf(m, r, hash).edits);
      } else if OfTransaction(r) || r.BeginTransaction? || r.HostWrite? {
        TransactionKeepsIntervals(m, r, hash);
        RunKeepsHealth(m, PlanOf(m, r, hash).edits);
      } else {
        MappingKeepsHealth(m, r, hash);
      }
    case PublishAll(t, writes, granted, cells) =>
      PublishKeepsIntervals(m, t, writes, granted, cells, hash);
      RunKeepsHealth(m, PublishPlan(m, t, writes, granted, cells, hash).edits);
    case LetGoAll(t) =>
      LetGosKeepIntervals(t, |m.transactions[t].inFlight|);
      RunKeepsHealth(m, LetGos(t, |m.transactions[t].inFlight|));
    case _ =>
  }

  /** A history of calls, each possible where it is made. */
  ghost predicate History(m: Memory, steps: seq<Step>, hash: ContentHash)
    decreases |steps|
  {
    steps == [] || (Possible(m, steps[0]) && Inv(m) && History(NextWhole(m, steps[0], hash), steps[1..], hash))
  }

  ghost function AfterHistory(m: Memory, steps: seq<Step>, hash: ContentHash): Memory
    requires History(m, steps, hash)
    decreases |steps|
  {
    if steps == [] then m else AfterHistory(NextWhole(m, steps[0], hash), steps[1..], hash)
  }

  /** Reference counts, stamps and the partition into reservations hold after every history of calls. */
  lemma {:induction false} HistoriesKeepHealth(m: Memory, steps: seq<Step>, hash: ContentHash)
    requires Healthy(m) && History(m, steps, hash)
    ensures Healthy(AfterHistory(m, steps, hash))
    decreases |steps|
  {
    hide Healthy, NextWhole, CanStepWhole, Feasible, Inv;
    if steps != [] {
      StepKeepsHealth(m, steps[0], hash);
      HistoriesKeepHealth(NextWhole(m, steps[0], hash), steps[1..], hash);
    }
  }

  /** In particular after every history that begins with an empty memory. */
  lemma ReachableIsHealthy(steps: seq<Step>, hash: ContentHash)
    requires History(EMPTY_MEMORY, steps, hash)
    ensures Healthy(AfterHistory(EMPTY_MEMORY, steps, hash))
  {
    EmptyIsHealthy();
    HistoriesKeepHealth(EMPTY_MEMORY, steps, hash);
  }

  // ---- Records ----

  /** Every transaction has one record of a page at most, no more than there is room for, and all say truly what they point at. */
  ghost predicate RecordsInOrder(m: Memory) {
    RecordsKnow(m) && forall t :: t in m.transactions ==> OneRecordEach(m, t)
  }

  ghost predicate NoPins(edits: seq<Edit>) {
    forall i :: 0 <= i < |edits| ==> !edits[i].Pin?
  }

  /** Only a pin adds a record. */
  lemma EditKeepsPages(m: Memory, e: Edit, t: TransactionId)
    requires !e.Pin? && t in Apply(m, e).transactions
    ensures var ds' := Apply(m, e).transactions[t].dependencies;
            && (t !in m.transactions ==> ds' == [])
            && (t in m.transactions ==>
                  && |ds'| <= |m.transactions[t].dependencies|
                  && forall i :: 0 <= i < |ds'| ==> ds'[i].page == m.transactions[t].dependencies[i].page)
  {
    if Enabled(m, e) && !TransactionEdit(e) {
      RecordsUntouched(m, e);
    }
  }

  lemma {:induction false} RunKeepsOneRecord(m: Memory, edits: seq<Edit>)
    requires NoPins(edits) && forall t :: t in m.transactions ==> OneRecordEach(m, t)
    ensures forall t :: t in Run(m, edits).transactions ==> OneRecordEach(Run(m, edits), t)
    decreases |edits|
  {
    hide Apply;
    if edits != [] {
      var m1 := Apply(m, edits[0]);
      forall t | t in m1.transactions ensures OneRecordEach(m1, t) {
        EditKeepsPages(m, edits[0], t);
      }
      forall i | 0 <= i < |edits[1..]| ensures !edits[1..][i].Pin? {
        assert !edits[i + 1].Pin?;
      }
      RunKeepsOneRecord(m1, edits[1..]);
    }
  }

  /** A pin that snapshot or validate takes is of a page not recorded yet, and there is room for it. */
  lemma PinKeepsOneRecord(m: Memory, t: TransactionId, p: nat, h: nat)
    requires t in m.transactions && FindDependency(m.transactions[t].dependencies, p).None?
    requires |m.transactions[t].dependencies| < MAX_DEPENDENCIES && forall u :: u in m.transactions ==> OneRecordEach(m, u)
    ensures forall u :: u in Apply(m, Pin(t, p, h)).transactions ==> OneRecordEach(Apply(m, Pin(t, p, h)), u)
  {
    hide FindDependency;
    if Enabled(m, Pin(t, p, h)) {
      assert Apply(m, Pin(t, p, h)) == PinPage(m, t, p, h);
    }
  }

  lemma MappingHasNoPins(m: Memory, r: Request, hash: ContentHash)
    requires Inv(m) && Ready(m, r) && !r.Access? && !r.Snapshot? && !r.RecordPage?
    ensures NoPins(PlanOf(m, r, hash).edits)
  {
    hide Inv, Check, CheckPages, ReserveBase, RecordedHash, FindDependency, Current, Allowed;
  }

  lemma RequestKeepsOneRecord(m: Memory, r: Request, hash: ContentHash)
    requires Inv(m) && Ready(m, r) && forall t :: t in m.transactions ==> OneRecordEach(m, t)
    ensures var m' := Run(m, PlanOf(m, r, hash).edits);
            forall t :: t in m'.transactions ==> OneRecordEach(m', t)
  {
    hide Inv, Run, Apply, OneRecordEach, Span, RecordedHash, FindDependency, Current, AccessPlan;
    var edits := PlanOf(m, r, hash).edits;
    NoEdits(m);
    if r.Access? {
      AccessEdits(m, r.a, r.n, r.kind, r.consumeGuard, r.scratch, r.cells);
      forall i | 0 <= i < |edits| ensures !edits[i].Pin? {
        assert AccessEdit(edits[i], r.a / PAGE_SIZE, Span(r.a, r.n));
      }
      RunKeepsOneRecord(m, edits);
    } else if r.Snapshot? || r.RecordPage? {
      RoomForRecord(m, r.t);
      if edits != [] {
        OneEdit(m, edits[0]);
        PinKeepsOneRecord(m, r.t, edits[0].page, edits[0].contentHash);
      }
    } else {
      MappingHasNoPins(m, r, hash);
      RunKeepsOneRecord(m, edits);
    }
  }

  lemma RoomForRecord(m: Memory, t: TransactionId)
    requires t in m.transactions && OneRecordEach(m, t)
    ensures |m.transactions[t].dependencies| <= MAX_DEPENDENCIES
  {
  }

  lemma {:induction false} WritesHaveNoPins(
    m: Memory, t: TransactionId, writes: seq<PageWrite>, cells: seq<Fresh>, hash: ContentHash, k: nat)
    requires t in m.transactions && GoodWrites(m, writes) && k <= |writes| == |cells|
    ensures NoPins(WriteEdits(m, t, writes, cells, hash, k))
    decreases k
  {
    if k > 0 {
      WritesHaveNoPins(m, t, writes, cells, hash, k - 1);
    }
  }

  lemma PublishHasNoPins(
    m: Memory, t: TransactionId, writes: seq<PageWrite>, granted: seq<bool>, cells: seq<Fresh>, hash: ContentHash)
    requires Inv(m) && t in m.transactions && |granted| == |cells| == |writes|
    ensures NoPins(PublishPlan(m, t, writes, granted, cells, hash).edits)
  {
    hide Inv, CheckWrites, FirstStale, FindDependency, WriteEdits;
    if CheckWrites(m, writes, 0) == Ok {
      CheckedWritesAreGood(m, writes);
      WritesHaveNoPins(m, t, writes, cells, hash, |writes|);
    }
  }

  /** What every call keeps about records. */
  lemma StepKeepsRecords(m: Memory, step: Step, hash: ContentHash)
    requires Inv(m) && RecordsInOrder(m) && CanStepWhole(m, step)
    ensures RecordsInOrder(NextWhole(m, step, hash))
  {
    hide Run, PlanOf, PublishPlan, Inv, Ready, RecordsKnow, OneRecordEach, NoPins;
    match step
    case Serve(r) =>
      RecordsKnowOverRun(m, PlanOf(m, r, hash).edits);
      RequestKeepsOneRecord(m, r, hash);
    case PublishAll(t, writes, granted, cells) =>
      var edits := PublishPlan(m, t, writes, granted, cells, hash).edits;
      RecordsKnowOverRun(m, edits);
      PublishHasNoPins(m, t, writes, granted, cells, hash);
      RunKeepsOneRecord(m, edits);
    case LetGoAll(t) =>
      var edits := LetGos(t, |m.transactions[t].inFlight|);
      RecordsKnowOverRun(m, edits);
      LetGosHaveNoPins(t, |m.transactions[t].inFlight|);
      RunKeepsOneRecord(m, edits);
    case _ =>
  }

  lemma LetGosHaveNoPins(t: TransactionId, count: nat)
    ensures NoPins(LetGos(t, count))
  {
  }

  lemma InOrderIsOrderly(m: Memory, t: TransactionId)
    requires RecordsInOrder(m) && t in m.transactions
    ensures Orderly(m, t)
  {
    forall i: nat | i < |m.transactions[t].dependencies| ensures RecordKnows(m, m.transactions[t].dependencies[i]) {
      assert HasDependency(m, t, i);
    }
  }

  /** After every history of calls that begins with an empty memory, the records of every transaction are in order. */
  lemma ReachableIsOrderly(steps: seq<Step>, hash: ContentHash, t: TransactionId)
    requires History(EMPTY_MEMORY, steps, hash) && t in AfterHistory(EMPTY_MEMORY, steps, hash).transactions
    ensures Orderly(AfterHistory(EMPTY_MEMORY, steps, hash), t)
  {
    HistoriesKeepRecords(EMPTY_MEMORY, steps, hash);
    InOrderIsOrderly(AfterHistory(EMPTY_MEMORY, steps, hash), t);
  }

  lemma {:induction false} HistoriesKeepRecords(m: Memory, steps: seq<Step>, hash: ContentHash)
    requires RecordsInOrder(m) && History(m, steps, hash)
    ensures RecordsInOrder(AfterHistory(m, steps, hash))
    decreases |steps|
  {
    hide NextWhole, CanStepWhole, Feasible, Inv, RecordsInOrder;
    if steps != [] {
      StepKeepsRecords(m, steps[0], hash);
      HistoriesKeepRecords(NextWhole(m, steps[0], hash), steps[1..], hash);
    }
  }
}

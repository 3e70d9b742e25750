/**
 The split-lock protocol of the memory object.

 Every call runs under the metadata lock and under reader/writer stripes named by page addresses and
 backing addresses.  `commit_pages` gives up the metadata lock while it is still copying, keeping its
 stripes and pins; any other call may run in between if the stripes it needs are free.  The theorems:
 such a run, with its owed copies settled, is a run of indivisible calls with the same answers, as long
 as each copied page's new backing lies on a stripe the commit holds; and where one does not, a reader
 can see a page that is part old and part new.
 */
module CommitProtocol {
  import opened Options
  import opened GuestMemory
  import opened MemoryInvariants
  import opened OptimisticValidation
  import opened MappingCalls
  import opened MappingEffects
  import opened MappingTheorems
  import opened PagedAccess
  import opened TransactionCalls
  import opened CommitPages
  import opened PendingCopies
  import opened ShapeIndependence
  import opened SplitCommit

  const STRIPES := 256

  function AddressStripe(p: nat): nat { p % STRIPES }

  function BackingStripe(b: BackingId): nat { b / 64 % STRIPES }

  datatype LockSet = LockSet(shared: set<nat>, exclusive: set<nat>)

  const NO_LOCKS := LockSet({}, {})

  // ---- Stripes a call takes ----

  function PageStripes(p: nat, b: Option<BackingId>): set<nat> {
    {AddressStripe(p)} + if b.Some? then {BackingStripe(b.value)} else {}
  }

  ghost function MappedStripes(m: Memory, p: nat): set<nat> {
    PageStripes(p, if p in m.pages then m.pages[p].backing else None)
  }

  /** The stripes of the pages `first .. first + count`. */
  ghost function SpanStripes(m: Memory, first: nat, count: nat): (s: set<nat>)
    ensures forall p: nat :: InRange(p, first, count) ==> MappedStripes(m, p) <= s
    decreases count
  {
    if count == 0 then {}
    else
      var rest := SpanStripes(m, first + 1, count - 1);
      assert forall p: nat :: InRange(p, first, count) ==> p == first || InRange(p, first + 1, count - 1);
      MappedStripes(m, first) + rest
  }

  ghost function AllStripes(): (s: set<nat>)
    ensures forall p: nat :: AddressStripe(p) in s
    ensures forall b: BackingId :: BackingStripe(b) in s
  {
    assert forall i: nat :: i < STRIPES ==> AddressStripe(i) == i;
    set i: nat | i < STRIPES && AddressStripe(i) == i
  }

  /** `range_stripes_acquire`: none for an empty or wrapping range, all for a long one. */
  ghost function RangeStripes(m: Memory, a: nat, n: nat): set<nat> {
    if n == 0 || a + (n - 1) > UINT64_MAX then {}
    else
      var first, count := a / PAGE_SIZE, (a + n - 1) / PAGE_SIZE - a / PAGE_SIZE + 1;
      if count >= STRIPES then AllStripes() else SpanStripes(m, first, count)
  }

  ghost function DependencyStripes(ds: seq<Dependency>): set<nat> {
    if ds == [] then {} else PageStripes(ds[0].page, Some(ds[0].backing)) + DependencyStripes(ds[1..])
  }

  ghost function WriteStripes(m: Memory, writes: seq<PageWrite>): (s: set<nat>)
    ensures forall i :: 0 <= i < |writes| ==> MappedStripes(m, WritePage(writes[i])) <= s
  {
    if writes == [] then {}
    else
      var rest := WriteStripes(m, writes[1..]);
      assert forall i :: 1 <= i < |writes| ==> writes[i] == writes[1..][i - 1];
      MappedStripes(m, WritePage(writes[0])) + rest
  }

  /** `commit_pages` reads what it depends on and writes what it publishes. */
  ghost function CommitLocks(m: Memory, t: TransactionId, writes: seq<PageWrite>): LockSet
    requires t in m.transactions
  {
    var writing := WriteStripes(m, writes);
    LockSet(DependencyStripes(m.transactions[t].dependencies) - writing, writing)
  }

  // ---- Requests: the calls that hold the metadata lock throughout, and what the host writes to its own pages ----

  datatype Request =
    | ReserveRange(a: nat, n: nat, room: nat)
    | CommitRange(a: nat, n: nat, protection: Protection, cells: Option<seq<Fresh>>)
    | CommitHostRange(a: nat, n: nat, host: nat, protection: Protection, identity: bool, records: Option<nat>, granted: seq<Fresh>)
    | DecommitRange(a: nat, n: nat)
    | ProtectRange(a: nat, n: nat, protection: Protection)
    | ReleaseRange(a: nat, n: nat)
    | UnmapRange(a: nat, n: nat)
    | AliasRange(a: nat, source: nat, n: nat, protection: Protection, room: nat)
    | MapIdentityRange(a: nat, n: nat, host: nat, protection: Protection, room: nat, granted: seq<Fresh>)
    | BindKuserPage(host: nat, cell: Option<Fresh>)
    | Access(a: nat, n: nat, kind: AccessKind, consumeGuard: bool, scratch: bool, cells: Option<seq<Fresh>>)
    | HostWrite(page: nat, content: PageBytes)
    | BeginTransaction(t: TransactionId)
    | Snapshot(t: TransactionId, a: nat)
    | RecordPage(t: TransactionId, page: nat)
    | UseGuard(t: TransactionId, page: nat, write: bool, execute: bool)
    | FinishTransaction(t: TransactionId)
    | EndTransaction(t: TransactionId)

  predicate OfTransaction(r: Request) {
    r.Snapshot? || r.RecordPage? || r.UseGuard? || r.FinishTransaction? || r.EndTransaction?
  }

  ghost predicate Ready(m: Memory, r: Request) {
    && (OfTransaction(r) ==> r.t in m.transactions)
    && (r.Access? ==>
          && (r.kind.Write? ==> |r.kind.data| == r.n)
          && (r.cells.Some? ==> |r.cells.value| == Span(r.a, r.n)))
  }

  /** The pin `validate` takes on a page it has not recorded. */
  ghost function RecordPlan(m: Memory, t: TransactionId, p: nat, hash: ContentHash): Plan
    requires t in m.transactions && Inv(m)
  {
    var ds := m.transactions[t].dependencies;
    if FindDependency(ds, p).Some? then Plan(Ok, [])
    else if |ds| == MAX_DEPENDENCIES then Plan(NoMemory, [])
    else if p !in m.pages then Plan(NotReserved, [])
    else if !Backed(m, p) then Plan(NotCommitted, [])
    else Plan(Ok, [Pin(t, p, RecordedHash(m, p, hash))])
  }

  /** What `validate` then makes of the record, taking the lock again if it shows a guard. */
  ghost function GuardPlan(m: Memory, t: TransactionId, p: nat, write: bool, execute: bool, hash: ContentHash): Plan
    requires t in m.transactions && Inv(m)
  {
    if FindDependency(m.transactions[t].dependencies, p).None? then Plan(NotReserved, [])
    else var v := ValidatePage(m, t, p, write, execute, hash); Plan(v.error, v.edits)
  }

  /** One page of `validate`, when nothing comes in between, is its two requests one after the other. */
  lemma ValidateInRequests(m: Memory, t: TransactionId, p: nat, write: bool, execute: bool, hash: ContentHash)
    requires Inv(m) && t in m.transactions && Orderly(m, t)
    ensures var first, v := RecordPlan(m, t, p, hash), ValidatePage(m, t, p, write, execute, hash);
            var m1 := Run(m, first.edits);
            && (first.error != Ok ==> v == Verdict(first.error, true, []))
            && (first.error == Ok ==>
                  && Inv(m1) && t in m1.transactions
                  && var second := GuardPlan(m1, t, p, write, execute, hash);
                  v.error == second.error && v.edits == first.edits + second.edits)
  {
    hide Inv, Run, Apply, Orderly, RecordsFollow, FindDependency, RecordedHash, Allowed;
    NoEdits(m);
    var ds := m.transactions[t].dependencies;
    OrderlyHas(m, t);
    if FindDependency(ds, p).None? && |ds| < MAX_DEPENDENCIES && Backed(m, p) {
      InvLoadable(m, p);
      NewRecord(m, t, p, hash);
      PinFrame(m, t, p, RecordedHash(m, p, hash));
      OneEdit(m, Pin(t, p, RecordedHash(m, p, hash)));
      FindAppended(ds, Observe(m, p, RecordedHash(m, p, hash)), p);
    }
  }

  ghost function PlanOf(m: Memory, r: Request, hash: ContentHash): Plan
    requires Inv(m) && Ready(m, r)
  {
    match r
    case ReserveRange(a, n, granted) => ReservePlan(m, a, n, granted)
    case CommitRange(a, n, protection, cells) => CommitPlan(m, a, n, protection, cells)
    case CommitHostRange(a, n, host, protection, identity, records, granted) =>
      CommitExternalPlan(m, a, host, n, protection, identity, records, granted)
    case DecommitRange(a, n) => DecommitPlan(m, a, n)
    case ProtectRange(a, n, protection) => ProtectPlan(m, a, n, protection)
    case ReleaseRange(a, n) => ReleasePlan(m, a, n)
    case UnmapRange(a, n) => UnmapPlan(m, a, n)
    case AliasRange(a, source, n, protection, granted) => AliasPlan(m, a, source, n, protection, granted)
    case MapIdentityRange(a, n, host, protection, room, granted) =>
      MapIdentityPlan(m, a, host, n, protection, room, granted)
    case BindKuserPage(host, cell) => BindKuserPlan(m, host, cell)
    case Access(a, n, kind, consumeGuard, scratch, cells) => AccessPlan(m, a, n, kind, consumeGuard, scratch, cells)
    case HostWrite(host, content) => Plan(Ok, [HostStore(host, content)])
    case BeginTransaction(t) => Plan(Ok, [Begin(t)])
    case Snapshot(t, a) => SnapshotPlan(m, t, a, hash)
    case RecordPage(t, p) => RecordPlan(m, t, p, hash)
    case UseGuard(t, p, write, execute) => GuardPlan(m, t, p, write, execute, hash)
    case FinishTransaction(t) => Plan(Finish(m, t, hash).error, [])
    case EndTransaction(t) => EndPlan(m, t)
  }

  /** What the caller sees: the error, and bytes where the call copies some out. */
  datatype Reply = Reply(error: Error, bytes: seq<Byte>)

  ghost function ReplyOf(m: Memory, r: Request, hash: ContentHash): Reply
    requires Inv(m) && Ready(m, r)
  {
    var error := PlanOf(m, r, hash).error;
    if r.Access? && error == Ok && !r.kind.Write? && !r.kind.QueryExecute? && AllLoadable(m, r.a / PAGE_SIZE, Span(r.a, r.n))
    then Reply(error, Gathered(m, r.a, r.n, Span(r.a, r.n)))
    else if r.Snapshot? && r.a % PAGE_SIZE == 0 && Loadable(m, r.a / PAGE_SIZE)
    then Reply(error, LoadPage(m, r.a / PAGE_SIZE))
    else Reply(error, [])
  }

  ghost function Locks(m: Memory, r: Request): LockSet
    requires Ready(m, r)
  {
    match r
    case ReserveRange(_, _, _) => NO_LOCKS
    case BindKuserPage(_, _) => LockSet({}, RangeStripes(m, 0, UINT64_MAX))
    case Access(a, n, kind, _, _, _) =>
      if kind.Write? then LockSet({}, RangeStripes(m, a, n)) else LockSet(RangeStripes(m, a, n), {})
    case HostWrite(_, _) => NO_LOCKS
    case BeginTransaction(_) => NO_LOCKS
    case Snapshot(_, a) =>
      if a % PAGE_SIZE == 0 && Backed(m, a / PAGE_SIZE) then LockSet(MappedStripes(m, a / PAGE_SIZE), {}) else NO_LOCKS
    case RecordPage(_, p) => if Backed(m, p) then LockSet(MappedStripes(m, p), {}) else NO_LOCKS
    case UseGuard(t, p, _, _) =>
      var i := FindDependency(m.transactions[t].dependencies, p);
      if i.Some? then LockSet({}, PageStripes(p, Some(m.transactions[t].dependencies[i.value].backing))) else NO_LOCKS
    case FinishTransaction(t) => LockSet(DependencyStripes(m.transactions[t].dependencies), {})
    case EndTransaction(_) => NO_LOCKS
    case _ => LockSet({}, RangeStripes(m, r.a, r.n))
  }

  // ---- The protocol ----

  datatype Protocol = Protocol(memory: Memory, copies: seq<Copy>, locks: map<TransactionId, LockSet>)

  datatype Step =
    | Serve(request: Request)
    | PublishAll(t: TransactionId, writes: seq<PageWrite>, granted: seq<bool>, cells: seq<Fresh>)
    | CopyLine(index: nat)
    | EndCopy(index: nat)
    | ReleaseStripes(t: TransactionId)
    | LetGoAll(t: TransactionId)

  /** These stripes can be had while every commit in flight keeps its own. */
  ghost predicate Compatible(s: Protocol, need: LockSet) {
    forall t :: t in s.locks ==>
      s.locks[t].exclusive !! need.exclusive && s.locks[t].exclusive !! need.shared && s.locks[t].shared !! need.exclusive
  }

  /** A transaction's owner makes one call at a time. */
  ghost predicate Idle(s: Protocol, t: TransactionId) {
    t !in s.locks && (t in s.memory.transactions ==> s.memory.transactions[t].inFlight == [])
  }

  ghost predicate FirstOfOwner(copies: seq<Copy>, i: nat)
    requires i < |copies|
  {
    forall j :: 0 <= j < i ==> copies[j].owner != copies[i].owner
  }

  ghost predicate CanStep(s: Protocol, step: Step) {
    match step
    case Serve(r) =>
      Ready(s.memory, r) && Compatible(s, Locks(s.memory, r)) && (OfTransaction(r) ==> Idle(s, r.t))
    case PublishAll(t, writes, granted, cells) =>
      && t in s.memory.transactions && Idle(s, t) && |granted| == |cells| == |writes| && Allocated(s.memory, cells)
      && Compatible(s, CommitLocks(s.memory, t, writes))
    case CopyLine(i) => i < |s.copies| && FirstOfOwner(s.copies, i) && s.copies[i].line < LINES
    case EndCopy(i) => i < |s.copies| && FirstOfOwner(s.copies, i) && s.copies[i].line == LINES
    case ReleaseStripes(t) => t in s.locks && forall i :: 0 <= i < |s.copies| ==> s.copies[i].owner != t
    case LetGoAll(t) => t in s.memory.transactions && t !in s.locks
  }

  ghost function Next(s: Protocol, step: Step, hash: ContentHash): Protocol
    requires Inv(s.memory) && Pinned(s.memory, s.copies) && CanStep(s, step)
  {
    match step
    case Serve(r) => s.(memory := Run(s.memory, PlanOf(s.memory, r, hash).edits))
    case PublishAll(t, writes, granted, cells) =>
      var plan := PublishPlan(s.memory, t, writes, granted, cells, hash);
      if plan.error != Ok then s.(memory := Run(s.memory, plan.edits))
      else
        CheckedWritesAreGood(s.memory, writes);
        Protocol(
          Run(s.memory, WriteEdits(s.memory, t, Withheld(s.memory, writes), cells, hash, |writes|)),
          s.copies + CopiesOwed(s.memory, t, writes, cells, |writes|),
          s.locks[t := CommitLocks(s.memory, t, writes)])
    case CopyLine(i) =>
      var c := s.copies[i];
      Protocol(
        SetBytes(s.memory, c.backing, WithLine(Contents(s.memory, c.backing), c.data, c.line)),
        s.copies[i := c.(line := c.line + 1)],
        s.locks)
    case EndCopy(i) => s.(copies := s.copies[..i] + s.copies[i + 1..])
    case ReleaseStripes(t) => s.(locks := s.locks - {t})
    case LetGoAll(t) => s.(memory := Run(s.memory, LetGos(t, |s.memory.transactions[t].inFlight|)))
  }

  // ---- The same calls, each in one piece ----

  ghost predicate CanStepWhole(m: Memory, step: Step) {
    match step
    case Serve(r) => Ready(m, r)
    case PublishAll(t, writes, granted, cells) => t in m.transactions && |granted| == |cells| == |writes|
    case LetGoAll(t) => t in m.transactions
    case _ => true
  }

  ghost function NextWhole(m: Memory, step: Step, hash: ContentHash): Memory
    requires Inv(m) && CanStepWhole(m, step)
  {
    match step
    case Serve(r) => Run(m, PlanOf(m, r, hash).edits)
    case PublishAll(t, writes, granted, cells) => Run(m, PublishPlan(m, t, writes, granted, cells, hash).edits)
    case LetGoAll(t) => Run(m, LetGos(t, |m.transactions[t].inFlight|))
    case _ => m
  }

  ghost function Answer(m: Memory, step: Step, hash: ContentHash): Reply
    requires Inv(m) && CanStepWhole(m, step)
  {
    match step
    case Serve(r) => ReplyOf(m, r, hash)
    case PublishAll(t, writes, granted, cells) => Reply(PublishPlan(m, t, writes, granted, cells, hash).error, [])
    case _ => Reply(Ok, [])
  }

  // ---- What a copy in progress needs ----

  /** The lines already copied hold their data. */
  ghost predicate Progress(m: Memory, c: Copy) {
    && IsInternal(m, c.backing) && c.line <= LINES
    && Contents(m, c.backing)[..c.line * LINE] == c.data[..c.line * LINE]
  }

  ghost predicate InProgress(m: Memory, copies: seq<Copy>) {
    && Inv(m) && RecordsKnow(m) && Pinned(m, copies)
    && (forall i :: 0 <= i < |copies| ==> Progress(m, copies[i]))
  }

  /** The edit reads or overwrites storage that a copy is owed to. */
  ghost predicate Disturbs(m: Memory, e: Edit, copies: seq<Copy>) {
    (e.Store? || e.Detach? || e.Publish?) && Enabled(m, e) && Owed(copies, BackingOf(m, e.page))
  }

  lemma IsOwed(copies: seq<Copy>, i: nat)
    requires i < |copies|
    ensures Owed(copies, copies[i].backing)
  {
  }

  lemma StoreElsewhere(m: Memory, p: nat, bytes: PageBytes, b: BackingId)
    requires Backed(m, p) && ReadableBacking(m, BackingOf(m, p)) && b in m.backings && b != BackingOf(m, p)
    ensures b in StoreThrough(m, p, bytes).backings && StoreThrough(m, p, bytes).backings[b].data == m.backings[b].data
  {
  }

  lemma PublishElsewhere(m: Memory, p: nat, copy: Option<Fresh>, bytes: PageBytes, b: BackingId)
    requires Enabled(m, Publish(p, copy, bytes)) && b in m.backings && b != BackingOf(m, p)
    requires b in PublishPage(m, p, copy, bytes).backings
    ensures PublishPage(m, p, copy, bytes).backings[b].data == m.backings[b].data
  {
    hide StoreThrough, Prepared;
    var m1 := Prepared(m, p, copy);
    PreparedReadable(m, p, copy);
    PreparedFrame(m, p, copy);
    StoreStamps(m1, p, bytes);
    PreparedHome(m, p, copy);
    StoreElsewhere(m1, p, bytes, b);
  }

  lemma PreparedHome(m: Memory, p: nat, copy: Option<Fresh>)
    requires Enabled(m, Publish(p, copy, ZeroPage()))
    ensures Backed(Prepared(m, p, copy), p)
    ensures BackingOf(Prepared(m, p, copy), p) == if copy.Some? then copy.value.id else BackingOf(m, p)
  {
  }

  lemma OtherBytesKept(m: Memory, e: Edit, b: BackingId)
    requires b in m.backings && b in Apply(m, e).backings && m.backings[b].data.Internal?
    requires !e.Store? && !e.Publish?
    ensures Apply(m, e).backings[b].data == m.backings[b].data
  {
  }

  /** Only a store through a page changes what that page's own storage holds. */
  lemma BytesElsewhere(m: Memory, e: Edit, b: BackingId)
    requires b in m.backings && b in Apply(m, e).backings && m.backings[b].data.Internal?
    requires (e.Store? || e.Publish?) && Enabled(m, e) ==> BackingOf(m, e.page) != b
    ensures Apply(m, e).backings[b].data == m.backings[b].data
  {
    if !e.Store? && !e.Publish? {
      OtherBytesKept(m, e, b);
    } else if Enabled(m, e) {
      if e.Publish? {
        hide PublishPage;
        PublishElsewhere(m, e.page, e.copy, e.content, b);
      } else {
        hide StoreThrough;
        StoreElsewhere(m, e.page, Overwrite(Contents(m, BackingOf(m, e.page)), e.offset, e.bytes), b);
      }
    }
  }

  lemma ProgressKept(m: Memory, e: Edit, copies: seq<Copy>)
    requires InProgress(m, copies) && !Disturbs(m, e, copies)
    requires forall i :: 0 <= i < |copies| ==> e != LetGo(copies[i].owner)
    ensures InProgress(Apply(m, e), copies)
  {
    hide Inv, RecordsKnow, Apply, Enabled, Owed;
    PinnedKept(m, copies, e);
    RecordsKnowKept(m, e);
    forall i | 0 <= i < |copies| ensures Progress(Apply(m, e), copies[i]) {
      IsOwed(copies, i);
      assert Progress(m, copies[i]);
      BytesElsewhere(m, e, copies[i].backing);
    }
  }

  /** Edits that neither look at owned bytes nor let go of storage. */
  predicate Quiet(e: Edit) {
    !e.Store? && !e.Detach? && !e.Publish? && !e.LetGo?
  }

  lemma OneEditSettles(m: Memory, copies: seq<Copy>, e: Edit)
    requires InProgress(m, copies) && !Disturbs(m, e, copies) && !e.Publish?
    requires forall i :: 0 <= i < |copies| ==> e != LetGo(copies[i].owner)
    ensures InProgress(Apply(m, e), copies) && Settled(Apply(m, e), copies) == Apply(Settled(m, copies), e)
  {
    hide Inv, RecordsKnow, Apply, Settled, InProgress;
    ProgressKept(m, e, copies);
    ProgressPinned(m, copies);
    PinnedLive(m, copies);
    EditSettles(m, copies, e);
  }

  lemma ProgressPinned(m: Memory, copies: seq<Copy>)
    requires InProgress(m, copies)
    ensures Inv(m) && RecordsKnow(m) && Pinned(m, copies) && CopiesLive(m, copies)
  {
    hide Inv, RecordsKnow, Owed;
    PinnedLive(m, copies);
  }

  lemma {:induction false} QuietSettles(m: Memory, copies: seq<Copy>, edits: seq<Edit>)
    requires InProgress(m, copies) && forall i :: 0 <= i < |edits| ==> Quiet(edits[i])
    ensures InProgress(Run(m, edits), copies) && Settled(Run(m, edits), copies) == Run(Settled(m, copies), edits)
    decreases |edits|
  {
    hide Apply, Settled, InProgress, Disturbs, Quiet;
    if edits != [] {
      QuietEdit(m, copies, edits[0]);
      forall i | 0 <= i < |edits[1..]| ensures Quiet(edits[1..][i]) {
        assert Quiet(edits[i + 1]);
      }
      QuietSettles(Apply(m, edits[0]), copies, edits[1..]);
    }
  }

  lemma QuietEdit(m: Memory, copies: seq<Copy>, e: Edit)
    requires InProgress(m, copies) && Quiet(e)
    ensures InProgress(Apply(m, e), copies) && Settled(Apply(m, e), copies) == Apply(Settled(m, copies), e)
  {
    hide InProgress, Apply, Settled;
    OneEditSettles(m, copies, e);
  }

  // ---- Accesses ----

  /** No page of the range shows storage that a copy is owed to. */
  ghost predicate RangeClear(m: Memory, first: nat, count: nat, copies: seq<Copy>) {
    forall p: nat :: InRange(p, first, count) && Backed(m, p) ==> !Owed(copies, BackingOf(m, p))
  }

  predicate AccessEdit(e: Edit, first: nat, count: nat) {
    (e.Store? || e.Detach? || e.PromoteExternal? || e.Protect?) && InRange(e.page, first, count)
  }

  lemma ClearKept(m: Memory, e: Edit, first: nat, count: nat, copies: seq<Copy>)
    requires Inv(m) && CopiesLive(m, copies) && RangeClear(m, first, count, copies) && AccessEdit(e, first, count)
    ensures !Disturbs(m, e, copies) && RangeClear(Apply(m, e), first, count, copies)
  {
    hide Counted, Stamped, Owed;
    var m' := Apply(m, e);
    forall p: nat | InRange(p, first, count) && Backed(m', p) ensures !Owed(copies, BackingOf(m', p)) {
      if e.Detach? && Enabled(m, e) && p == e.page {
        assert BackingOf(m', p) == e.cell.id && e.cell.id !in m.backings;
      } else {
        assert m'.pages[p].backing == m.pages[p].backing;
        MappedIsBacked(m, p);
      }
    }
  }

  lemma {:induction false} AccessSettles(m: Memory, copies: seq<Copy>, edits: seq<Edit>, first: nat, count: nat)
    requires InProgress(m, copies) && RangeClear(m, first, count, copies)
    requires forall i :: 0 <= i < |edits| ==> AccessEdit(edits[i], first, count)
    ensures InProgress(Run(m, edits), copies) && Settled(Run(m, edits), copies) == Run(Settled(m, copies), edits)
    decreases |edits|
  {
    hide Apply, Settled, InProgress, Disturbs, RangeClear;
    if edits != [] {
      ProgressPinned(m, copies);
      ClearKept(m, edits[0], first, count, copies);
      OneEditSettles(m, copies, edits[0]);
      forall i | 0 <= i < |edits[1..]| ensures AccessEdit(edits[1..][i], first, count) {
        assert AccessEdit(edits[i + 1], first, count);
      }
      AccessSettles(Apply(m, edits[0]), copies, edits[1..], first, count);
    }
  }

  // ---- The state of the protocol ----

  /** Every copy owed goes to storage on a stripe its commit holds for writing. */
  ghost predicate Guarded(s: Protocol) {
    forall i :: 0 <= i < |s.copies| ==>
      && s.copies[i].owner in s.locks
      && BackingStripe(s.copies[i].backing) in s.locks[s.copies[i].owner].exclusive
  }

  /** Stripes held for writing are held by one commit only. */
  ghost predicate Exclusive(s: Protocol) {
    forall t, u :: t in s.locks && u in s.locks && t != u ==>
      s.locks[t].exclusive !! s.locks[u].exclusive && s.locks[t].exclusive !! s.locks[u].shared
  }

  /** A commit copies its pages one after the other. */
  ghost predicate InOrder(copies: seq<Copy>) {
    forall i :: 0 <= i < |copies| && copies[i].line > 0 ==> FirstOfOwner(copies, i)
  }

  ghost predicate Valid(s: Protocol) {
    InProgress(s.memory, s.copies) && Guarded(s) && Exclusive(s) && InOrder(s.copies)
  }

  /** The hypothesis of the refinement: new storage for copied pages lies on stripes the commit holds. */
  ghost predicate Covered(s: Protocol, step: Step) {
    step.PublishAll? ==>
      forall i :: 0 <= i < |step.writes| && i < |step.cells| && Copies(s.memory, WritePage(step.writes[i])) ==>
        BackingStripe(step.cells[i].id) in WriteStripes(s.memory, step.writes)
  }

  /** A call that has all stripes of a page finds nothing owed to what the page shows. */
  lemma StripesClear(s: Protocol, need: LockSet, stripes: set<nat>, p: nat)
    requires Guarded(s) && Compatible(s, need) && (stripes <= need.exclusive || stripes <= need.shared)
    requires MappedStripes(s.memory, p) <= stripes && Backed(s.memory, p)
    ensures !Owed(s.copies, BackingOf(s.memory, p))
  {
    var b := BackingOf(s.memory, p);
    assert BackingStripe(b) in stripes;
    forall i | 0 <= i < |s.copies| ensures s.copies[i].backing != b {
      var owner := s.copies[i].owner;
      assert BackingStripe(s.copies[i].backing) in s.locks[owner].exclusive;
    }
  }

  /** The pages of a byte range, seen as the locks see them and as an access sees them. */
  lemma SpanIsRange(a: nat, n: nat)
    requires n > 0
    ensures Span(a, n) == (a + n - 1) / PAGE_SIZE - a / PAGE_SIZE + 1
  {
  }

  lemma RangeCovers(m: Memory, a: nat, n: nat, p: nat)
    requires a + n <= UINT64_MAX && InRange(p, a / PAGE_SIZE, Span(a, n))
    ensures MappedStripes(m, p) <= RangeStripes(m, a, n)
  {
    hide Span;
    if n == 0 {
      SpanNone(a);
    } else {
      SpanIsRange(a, n);
    }
  }

  lemma AccessClear(s: Protocol, a: nat, n: nat, need: LockSet)
    requires Guarded(s) && Compatible(s, need) && a + n <= UINT64_MAX
    requires RangeStripes(s.memory, a, n) == need.exclusive || RangeStripes(s.memory, a, n) == need.shared
    ensures RangeClear(s.memory, a / PAGE_SIZE, Span(a, n), s.copies)
  {
    hide Span, RangeStripes, Guarded, Compatible, MappedStripes, Owed;
    forall p: nat | InRange(p, a / PAGE_SIZE, Span(a, n)) && Backed(s.memory, p)
      ensures !Owed(s.copies, BackingOf(s.memory, p))
    {
      RangeCovers(s.memory, a, n, p);
      StripesClear(s, need, RangeStripes(s.memory, a, n), p);
    }
  }

  ghost predicate AccessEditsOnly(edits: seq<Edit>, first: nat, count: nat) {
    forall i :: 0 <= i < |edits| ==> AccessEdit(edits[i], first, count)
  }

  lemma AccessAppend(edits: seq<Edit>, more: seq<Edit>, first: nat, count: nat)
    requires AccessEditsOnly(edits, first, count) && AccessEditsOnly(more, first, count)
    ensures AccessEditsOnly(edits + more, first, count)
  {
  }

  lemma {:induction false} PromoteEditsAccess(m: Memory, first: nat, cells: seq<Fresh>, write: bool, k: nat)
    requires k <= |cells|
    ensures AccessEditsOnly(PromoteEdits(m, first, cells, write, k), first, |cells|)
    decreases k
  {
    if k > 0 {
      PromoteEditsAccess(m, first, cells, write, k - 1);
      assert InRange(first + (k - 1), first, |cells|);
      AccessAppend(PromoteEdits(m, first, cells, write, k - 1), PromoteEdit(m, first + (k - 1), write, cells[k - 1]),
                   first, |cells|);
    }
  }

  lemma StoreEditsAccess(a: nat, data: seq<Byte>)
    ensures AccessEditsOnly(StoreEdits(a, data), a / PAGE_SIZE, Span(a, |data|))
  {
    hide Span;
  }

  lemma AccessEdits(
    m: Memory, a: nat, n: nat, kind: AccessKind, consumeGuard: bool, scratch: bool, cells: Option<seq<Fresh>>)
    requires kind.Write? ==> |kind.data| == n
    requires cells.Some? ==> |cells.value| == Span(a, n)
    ensures var edits := AccessPlan(m, a, n, kind, consumeGuard, scratch, cells).edits;
            AccessEditsOnly(edits, a / PAGE_SIZE, Span(a, n)) && (edits != [] ==> a + n <= UINT64_MAX)
  {
    hide Span, PromoteEdits, StoreEdits, CheckAccess;
    var first, count := a / PAGE_SIZE, Span(a, n);
    PromoteEditsAccess(m, first, seq(count, _ => Fresh(0, 0)), false, count);
    if kind.Write? {
      StoreEditsAccess(a, kind.data);
      if cells.Some? {
        PromoteEditsAccess(m, first, cells.value, true, count);
        AccessAppend(PromoteEdits(m, first, cells.value, true, count), StoreEdits(a, kind.data), first, count);
      }
    }
  }

  // ---- Requests refine ----

  /** The request leaves every owed copy as it is, and looks like the request on settled memory. */
  ghost predicate Refines(s: Protocol, r: Request, hash: ContentHash)
    requires Inv(s.memory) && Ready(s.memory, r)
  {
    var z := Settled(s.memory, s.copies);
    && Inv(z) && Ready(z, r)
    && PlanOf(z, r, hash) == PlanOf(s.memory, r, hash)
    && ReplyOf(z, r, hash) == ReplyOf(s.memory, r, hash)
    && InProgress(Run(s.memory, PlanOf(s.memory, r, hash).edits), s.copies)
    && Settled(Run(s.memory, PlanOf(s.memory, r, hash).edits), s.copies) == Run(z, PlanOf(z, r, hash).edits)
  }

  ghost predicate QuietOnly(edits: seq<Edit>) {
    forall i :: 0 <= i < |edits| ==> Quiet(edits[i])
  }

  lemma CommitQuiet(m: Memory, r: Request, hash: ContentHash)
    requires Inv(m) && Ready(m, r) && (r.CommitRange? || r.CommitHostRange? || r.MapIdentityRange? || r.BindKuserPage?)
    ensures QuietOnly(PlanOf(m, r, hash).edits)
  {
    hide Check, CheckPages, Inv, ReserveBase;
  }

  lemma RangeQuiet(m: Memory, r: Request, hash: ContentHash)
    requires Inv(m) && Ready(m, r)
    requires r.ReserveRange? || r.DecommitRange? || r.ProtectRange? || r.ReleaseRange? || r.UnmapRange? || r.AliasRange?
    ensures QuietOnly(PlanOf(m, r, hash).edits)
  {
    hide Check, CheckPages, Inv, ReserveBase;
  }

  lemma TransactionQuiet(m: Memory, r: Request, hash: ContentHash)
    requires Inv(m) && Ready(m, r) && (OfTransaction(r) || r.BeginTransaction? || r.HostWrite?)
    ensures QuietOnly(PlanOf(m, r, hash).edits)
  {
    hide Counted, Stamped, RecordedHash, FindDependency, Current, Allowed;
  }

  lemma PlansQuiet(m: Memory, r: Request, hash: ContentHash)
    requires Inv(m) && Ready(m, r) && !r.Access?
    ensures QuietOnly(PlanOf(m, r, hash).edits)
  {
    hide PlanOf, Inv, Ready;
    if r.CommitRange? || r.CommitHostRange? || r.MapIdentityRange? || r.BindKuserPage? {
      CommitQuiet(m, r, hash);
    } else if OfTransaction(r) || r.BeginTransaction? || r.HostWrite? {
      TransactionQuiet(m, r, hash);
    } else {
      RangeQuiet(m, r, hash);
    }
  }

  lemma ShapeMapping(m: Memory, m': Memory, r: Request, hash: ContentHash)
    requires SameShape(m, m') && Inv(m) && Inv(m') && Ready(m, r) && Ready(m', r)
    requires !r.Access? && !OfTransaction(r) && !r.CommitHostRange? && !r.ReserveRange? && !r.MapIdentityRange?
    ensures PlanOf(m', r, hash) == PlanOf(m, r, hash)
  {
    hide CheckPages, Counted, Stamped;
    if !r.BeginTransaction? && !r.BindKuserPage? && !r.HostWrite? {
      ShapeCheckPages(m, m', r.a / PAGE_SIZE, r.n / PAGE_SIZE, r.ProtectRange?);
    }
    if r.AliasRange? {
      ShapeCheckPages(m, m', r.source / PAGE_SIZE, r.n / PAGE_SIZE, true);
    }
  }

  lemma ShapeHostMapping(m: Memory, m': Memory, r: Request, hash: ContentHash)
    requires SameShape(m, m') && Inv(m) && Inv(m') && Ready(m, r) && Ready(m', r)
    requires r.CommitHostRange? || r.ReserveRange? || r.MapIdentityRange?
    ensures PlanOf(m', r, hash) == PlanOf(m, r, hash)
  {
    hide CheckPages, Inv, SameShape, ReservePlan, CommitHostCheck;
    if r.CommitHostRange? {
      ShapeCheckPages(m, m', r.a / PAGE_SIZE, r.n / PAGE_SIZE, false);
      if CheckPages(m, r.a / PAGE_SIZE, r.n / PAGE_SIZE, false) == Ok && r.records.Some? {
        ShapeCommitHostCheck(m, m', r.a / PAGE_SIZE, r.host / PAGE_SIZE, r.n / PAGE_SIZE, r.records.value);
      }
    } else {
      ShapeReserve(m, m', r.a, r.n, r.room);
    }
  }

  lemma ShapeTransaction(m: Memory, m': Memory, r: Request, hash: ContentHash)
    requires SameShape(m, m') && Inv(m) && Inv(m') && Ready(m, r) && Ready(m', r)
    requires RecordsKnow(m) && OfTransaction(r)
    ensures PlanOf(m', r, hash) == PlanOf(m, r, hash)
  {
    hide Inv, RecordsKnow, SameShape, SnapshotPlan, ValidatePage, FindDependency, FirstStale, RecordedHash;
    ShapePages(m, m');
    match r
    case Snapshot(t, a) => ShapeSnapshot(m, m', t, a, hash);
    case RecordPage(_, p) =>
      ShapeBacked(m, m');
      if Backed(m, p) {
        InvLoadable(m, p);
        ShapeRecordedHash(m, m', p, hash);
      }
    case UseGuard(t, p, write, execute) => ShapeValidatePage(m, m', t, p, write, execute, hash);
    case FinishTransaction(t) =>
      KnownRecords(m, t);
      ShapeFirstStale(m, m', m.transactions[t].dependencies, hash);
    case EndTransaction(_) =>
  }

  lemma ShapePlans(m: Memory, m': Memory, r: Request, hash: ContentHash)
    requires SameShape(m, m') && Inv(m) && Inv(m') && RecordsKnow(m) && Ready(m, r)
    ensures Ready(m', r) && PlanOf(m', r, hash) == PlanOf(m, r, hash)
  {
    hide PlanOf, Inv, SameShape, RecordsKnow, Span;
    ShapePages(m, m');
    if r.Access? {
      ShapeAccessPlan(m, m', r, hash);
    } else if OfTransaction(r) {
      ShapeTransaction(m, m', r, hash);
    } else if r.CommitHostRange? || r.ReserveRange? || r.MapIdentityRange? {
      ShapeHostMapping(m, m', r, hash);
    } else {
      ShapeMapping(m, m', r, hash);
    }
  }

  lemma ShapeAccessPlan(m: Memory, m': Memory, r: Request, hash: ContentHash)
    requires SameShape(m, m') && Inv(m) && Inv(m') && Ready(m, r) && Ready(m', r) && r.Access?
    ensures PlanOf(m', r, hash) == PlanOf(m, r, hash)
  {
    hide Inv, SameShape, AccessPlan, Span;
    ShapeAccess(m, m', r.a, r.n, r.kind, r.consumeGuard, r.scratch, r.cells);
  }

  // ---- Replies ----

  lemma SettledLoad(m: Memory, copies: seq<Copy>, p: nat)
    requires CopiesLive(m, copies) && Loadable(m, p) && !Owed(copies, BackingOf(m, p))
    ensures Loadable(Settled(m, copies), p) && LoadPage(Settled(m, copies), p) == LoadPage(m, p)
  {
  }

  lemma {:induction false} SettledGather(m: Memory, copies: seq<Copy>, a: nat, n: nat, k: nat)
    requires CopiesLive(m, copies) && k <= Span(a, n) && AllLoadable(m, a / PAGE_SIZE, k)
    requires RangeClear(m, a / PAGE_SIZE, k, copies)
    ensures AllLoadable(Settled(m, copies), a / PAGE_SIZE, k)
    ensures Gathered(Settled(m, copies), a, n, k) == Gathered(m, a, n, k)
    decreases k
  {
    hide Settled, Span, CopiesLive, Owed, LoadPage;
    var first := a / PAGE_SIZE;
    forall p: nat | InRange(p, first, k) ensures Loadable(Settled(m, copies), p) {
      SettledLoad(m, copies, p);
    }
    if k > 0 {
      FewerLoadable(m, first, k, k - 1);
      FewerLoadable(Settled(m, copies), first, k, k - 1);
      assert forall p: nat :: InRange(p, first, k - 1) ==> InRange(p, first, k);
      SettledGather(m, copies, a, n, k - 1);
      assert InRange(first + (k - 1), first, k);
      SettledLoad(m, copies, PageAt(a, k - 1));
    }
  }

  lemma ShapeLoadable(m: Memory, m': Memory, first: nat, count: nat)
    requires SameShape(m, m')
    ensures AllLoadable(m', first, count) <==> AllLoadable(m, first, count)
  {
    ShapeBacked(m, m');
  }

  lemma AccessReply(s: Protocol, r: Request, hash: ContentHash)
    requires InProgress(s.memory, s.copies) && Guarded(s) && Ready(s.memory, r) && r.Access?
    requires Compatible(s, Locks(s.memory, r))
    ensures var z := Settled(s.memory, s.copies);
            Inv(z) && Ready(z, r) && ReplyOf(z, r, hash) == ReplyOf(s.memory, r, hash)
  {
    hide Inv, RecordsKnow, Settled, SameShape, Span, PlanOf, RangeStripes, Compatible, Guarded, InProgress, RangeClear,
         AllLoadable, Gathered, CopiesLive;
    var m, z := s.memory, Settled(s.memory, s.copies);
    ProgressPinned(m, s.copies);
    SettledSameShape(m, s.copies);
    ShapeKeepsInv(m, z);
    ShapePlans(m, z, r, hash);
    ShapeLoadable(m, z, r.a / PAGE_SIZE, Span(r.a, r.n));
    if PlanOf(m, r, hash).error == Ok && !r.kind.Write? && AllLoadable(m, r.a / PAGE_SIZE, Span(r.a, r.n)) {
      AccessInBounds(m, r, hash);
      AccessClear(s, r.a, r.n, Locks(m, r));
      SettledGather(m, s.copies, r.a, r.n, Span(r.a, r.n));
    }
  }

  lemma AccessInBounds(m: Memory, r: Request, hash: ContentHash)
    requires Inv(m) && Ready(m, r) && r.Access? && PlanOf(m, r, hash).error == Ok
    ensures r.a + r.n <= UINT64_MAX
  {
  }

  lemma OtherReply(s: Protocol, r: Request, hash: ContentHash)
    requires InProgress(s.memory, s.copies) && Guarded(s) && Ready(s.memory, r) && !r.Access?
    requires Compatible(s, Locks(s.memory, r))
    ensures var z := Settled(s.memory, s.copies);
            Inv(z) && Ready(z, r) && ReplyOf(z, r, hash) == ReplyOf(s.memory, r, hash)
  {
    hide Inv, RecordsKnow, Settled, SameShape, PlanOf, Compatible, Guarded, InProgress, MappedStripes, CopiesLive, LoadPage,
         RangeStripes;
    var m, z := s.memory, Settled(s.memory, s.copies);
    ProgressPinned(m, s.copies);
    SettledSameShape(m, s.copies);
    ShapeKeepsInv(m, z);
    ShapePlans(m, z, r, hash);
    ShapeBacked(m, z);
    if r.Snapshot? && r.a % PAGE_SIZE == 0 && Loadable(m, r.a / PAGE_SIZE) {
      StripesClear(s, Locks(m, r), MappedStripes(m, r.a / PAGE_SIZE), r.a / PAGE_SIZE);
      SettledLoad(m, s.copies, r.a / PAGE_SIZE);
    }
  }

  /** Whatever request is let in while copies are owed, it cannot tell that they are. */
  lemma RequestRefines(s: Protocol, r: Request, hash: ContentHash)
    requires InProgress(s.memory, s.copies) && Guarded(s) && Ready(s.memory, r)
    requires Compatible(s, Locks(s.memory, r))
    ensures Inv(s.memory) && Refines(s, r, hash)
  {
    hide Inv, RecordsKnow, Settled, SameShape, PlanOf, ReplyOf, Compatible, Guarded, Locks, InProgress, CopiesLive, Span, Run;
    var m, z := s.memory, Settled(s.memory, s.copies);
    ProgressPinned(m, s.copies);
    SettledSameShape(m, s.copies);
    ShapeKeepsInv(m, z);
    ShapePlans(m, z, r, hash);
    if r.Access? {
      AccessReply(s, r, hash);
      AccessRunSettles(s, r, hash);
    } else {
      OtherReply(s, r, hash);
      PlansQuiet(m, r, hash);
      QuietSettles(m, s.copies, PlanOf(m, r, hash).edits);
    }
  }

  lemma AccessRunSettles(s: Protocol, r: Request, hash: ContentHash)
    requires InProgress(s.memory, s.copies) && Guarded(s) && Ready(s.memory, r) && r.Access?
    requires Compatible(s, Locks(s.memory, r))
    ensures var edits := PlanOf(s.memory, r, hash).edits;
            && InProgress(Run(s.memory, edits), s.copies)
            && Settled(Run(s.memory, edits), s.copies) == Run(Settled(s.memory, s.copies), edits)
  {
    hide Inv, RecordsKnow, Settled, AccessPlan, Compatible, Guarded, InProgress, Span, Run, RangeStripes, RangeClear;
    ProgressPinned(s.memory, s.copies);
    NoEdits(s.memory);
    NoEdits(Settled(s.memory, s.copies));
    AccessEdits(s.memory, r.a, r.n, r.kind, r.consumeGuard, r.scratch, r.cells);
    var edits := PlanOf(s.memory, r, hash).edits;
    if edits != [] {
      AccessClear(s, r.a, r.n, Locks(s.memory, r));
      AccessSettles(s.memory, s.copies, edits, r.a / PAGE_SIZE, Span(r.a, r.n));
    }
  }

  // ---- Publication refines ----

  /** While a commit publishes, copies owed by others are not disturbed. */
  lemma {:induction false} PublishProgress(
    m: Memory, copies: seq<Copy>, t: TransactionId, writes: seq<PageWrite>, cells: seq<Fresh>, hash: ContentHash, k: nat)
    requires InProgress(m, copies) && Inv(m) && GoodWrites(m, writes) && k <= |writes| == |cells|
    requires t in m.transactions && Allocated(m, cells)
    requires forall i :: 0 <= i < |writes| ==> !Owed(copies, BackingOf(m, WritePage(writes[i])))
    ensures InProgress(Run(m, WriteEdits(m, t, writes, cells, hash, k)), copies)
    decreases k
  {
    hide Inv, Run, Apply, InProgress, Awaiting, Committed, Allocated, RecordEdit, PublishEdit, Owed;
    if k == 0 {
      NoEdits(m);
    } else {
      PublishProgress(m, copies, t, writes, cells, hash, k - 1);
      WritesRun(m, t, writes, cells, hash, k - 1);
      var s := Run(m, WriteEdits(m, t, writes, cells, hash, k - 1));
      var p, bytes := WritePage(writes[k - 1]), writes[k - 1].data.value;
      var last := [PublishEdit(m, p, cells[k - 1], bytes), Hold(t, p)] + RecordEdit(m, t, p, bytes, hash);
      RunAppend(m, WriteEdits(m, t, writes, cells, hash, k - 1), last);
      WriteProgress(m, s, copies, t, writes, cells, hash, k - 1);
    }
  }

  lemma WriteProgress(
    m: Memory, s: Memory, copies: seq<Copy>, t: TransactionId, writes: seq<PageWrite>, cells: seq<Fresh>,
    hash: ContentHash, k: nat)
    requires InProgress(s, copies) && Inv(m) && GoodWrites(m, writes) && k < |writes| == |cells|
    requires t in m.transactions && Awaiting(m, s, t, writes, cells, k)
    requires !Owed(copies, BackingOf(m, WritePage(writes[k])))
    ensures var p, bytes := WritePage(writes[k]), writes[k].data.value;
            InProgress(Run(s, [PublishEdit(m, p, cells[k], bytes), Hold(t, p)] + RecordEdit(m, t, p, bytes, hash)), copies)
  {
    hide Inv, Run, Apply, InProgress, Owed, Enabled, AmongWrites, FindDependency;
    var p, bytes := WritePage(writes[k]), writes[k].data.value;
    var publish, record := PublishEdit(m, p, cells[k], bytes), RecordEdit(m, t, p, bytes, hash);
    NotYetAmong(m, writes, k);
    ProgressKept(s, publish, copies);
    var s1 := Apply(s, publish);
    ProgressKept(s1, Hold(t, p), copies);
    var s2 := Apply(s1, Hold(t, p));
    RunAppend(s, [publish, Hold(t, p)], record);
    TwoEdits(s, publish, Hold(t, p));
    NoEdits(s2);
    if record != [] {
      ProgressKept(s2, record[0], copies);
      OneEdit(s2, record[0]);
      assert record == [record[0]];
    }
  }

  /** Copies as they are when a commit starts copying: none begun, all on stripes it holds. */
  ghost predicate Starting(copies: seq<Copy>, t: TransactionId, locks: set<nat>) {
    forall i :: 0 <= i < |copies| ==>
      copies[i].owner == t && copies[i].line == 0 && BackingStripe(copies[i].backing) in locks
  }

  lemma StartingAppend(copies: seq<Copy>, more: seq<Copy>, t: TransactionId, locks: set<nat>)
    requires Starting(copies, t, locks) && Starting(more, t, locks)
    ensures Starting(copies + more, t, locks)
  {
  }

  lemma {:induction false} OwedAtStart(
    m: Memory, t: TransactionId, writes: seq<PageWrite>, cells: seq<Fresh>, k: nat, locks: set<nat>)
    requires GoodWrites(m, writes) && k <= |writes| == |cells|
    requires forall i :: 0 <= i < |writes| ==> MappedStripes(m, WritePage(writes[i])) <= locks
    requires forall i :: 0 <= i < |writes| && Copies(m, WritePage(writes[i])) ==> BackingStripe(cells[i].id) in locks
    ensures Starting(CopiesOwed(m, t, writes, cells, k), t, locks)
    decreases k
  {
    if k > 0 {
      OwedAtStart(m, t, writes, cells, k - 1, locks);
      var p := WritePage(writes[k - 1]);
      assert MappedStripes(m, p) <= locks;
      assert BackingStripe(BackingOf(m, p)) in MappedStripes(m, p);
      assert Copies(m, WritePage(writes[k - 1])) ==> BackingStripe(cells[k - 1].id) in locks;
      StartingAppend(CopiesOwed(m, t, writes, cells, k - 1), CopyOwed(m, t, writes, cells, k - 1), t, locks);
    }
  }

  lemma GuardEditsQuiet(m: Memory, t: TransactionId, p: nat)
    requires t in m.transactions && p in m.pages
    ensures QuietOnly(GuardEdits(m, t, p))
  {
  }

  lemma FailedPublishQuiet(
    m: Memory, t: TransactionId, writes: seq<PageWrite>, granted: seq<bool>, cells: seq<Fresh>, hash: ContentHash)
    requires Inv(m) && t in m.transactions && |granted| == |cells| == |writes|
    requires PublishPlan(m, t, writes, granted, cells, hash).error != Ok
    ensures QuietOnly(PublishPlan(m, t, writes, granted, cells, hash).edits)
  {
    hide Inv, GuardEdits, CheckWrites, FirstStale, WriteEdits;
    var o := FirstObstacle(m, writes, granted, 0);
    if o.Guarded? {
      GuardEditsQuiet(m, t, WritePage(writes[o.index]));
    }
  }

  ghost predicate StepRefines(s: Protocol, step: Step, hash: ContentHash)
    requires Inv(s.memory) && Pinned(s.memory, s.copies) && CanStep(s, step)
  {
    var z, s' := Settled(s.memory, s.copies), Next(s, step, hash);
    && Inv(z) && CanStepWhole(z, step)
    && CanStepWhole(s.memory, step) && Answer(z, step, hash) == Answer(s.memory, step, hash)
    && Valid(s') && Inv(s'.memory) && Pinned(s'.memory, s'.copies)
    && Settled(s'.memory, s'.copies) == NextWhole(z, step, hash)
  }

  lemma WrittenNotOwed(s: Protocol, t: TransactionId, writes: seq<PageWrite>)
    requires Guarded(s) && t in s.memory.transactions && GoodWrites(s.memory, writes)
    requires Compatible(s, CommitLocks(s.memory, t, writes))
    ensures forall i :: 0 <= i < |writes| ==> !Owed(s.copies, BackingOf(s.memory, WritePage(writes[i])))
  {
    hide Guarded, Compatible, MappedStripes, Owed;
    var need := CommitLocks(s.memory, t, writes);
    forall i | 0 <= i < |writes| ensures !Owed(s.copies, BackingOf(s.memory, WritePage(writes[i]))) {
      StripesClear(s, need, need.exclusive, WritePage(writes[i]));
    }
  }

  /** A commit that publishes: its copies join those already owed. */
  lemma PublishedState(
    s: Protocol, t: TransactionId, writes: seq<PageWrite>, cells: seq<Fresh>, hash: ContentHash)
    requires Valid(s) && Inv(s.memory) && GoodWrites(s.memory, writes) && t in s.memory.transactions && Idle(s, t)
    requires |cells| == |writes| && Allocated(s.memory, cells)
    requires Compatible(s, CommitLocks(s.memory, t, writes))
    requires forall i :: 0 <= i < |writes| && Copies(s.memory, WritePage(writes[i])) ==>
               BackingStripe(cells[i].id) in WriteStripes(s.memory, writes)
    ensures var s' := Protocol(
                        Run(s.memory, WriteEdits(s.memory, t, Withheld(s.memory, writes), cells, hash, |writes|)),
                        s.copies + CopiesOwed(s.memory, t, writes, cells, |writes|),
                        s.locks[t := CommitLocks(s.memory, t, writes)]);
            && Valid(s')
            && Settled(s'.memory, s'.copies)
               == Run(Settled(s.memory, s.copies), WriteEdits(s.memory, t, writes, cells, hash, |writes|))
  {
    hide Inv, Run, RecordsKnow, Settled, Allocated, Owed, MappedStripes, DependencyStripes, WriteEdits, CopiesOwed, Contents,
         Copies, LoadPage, Pinned;
    var m, held := s.memory, Withheld(s.memory, writes);
    ProgressPinned(m, s.copies);
    SplitRun(m, s.copies, t, writes, cells, hash, |writes|);
    WrittenNotOwed(s, t, writes);
    PublishProgress(m, s.copies, t, held, cells, hash, |writes|);
    OwedAtStart(m, t, writes, cells, |writes|, WriteStripes(m, writes));
    var m' := Run(m, WriteEdits(m, t, held, cells, hash, |writes|));
    var more := CopiesOwed(m, t, writes, cells, |writes|);
    StartedProgress(m', s.copies, more);
    StartedProtocol(s, m', t, more, CommitLocks(m, t, writes));
  }

  lemma StartedProgress(m: Memory, copies: seq<Copy>, more: seq<Copy>)
    requires InProgress(m, copies) && Pinned(m, copies + more)
    requires forall i :: 0 <= i < |more| ==> more[i].line == 0
    ensures InProgress(m, copies + more)
  {
    hide Inv, RecordsKnow;
    var all := copies + more;
    forall i | 0 <= i < |all| ensures Progress(m, all[i]) {
      if i < |copies| {
        assert Progress(m, copies[i]);
      }
      assert all[i] == if i < |copies| then copies[i] else more[i - |copies|];
    }
  }

  lemma StartedProtocol(s: Protocol, m': Memory, t: TransactionId, more: seq<Copy>, need: LockSet)
    requires Guarded(s) && Exclusive(s) && InOrder(s.copies) && t !in s.locks && Compatible(s, need)
    requires forall i :: 0 <= i < |more| ==>
               more[i].owner == t && more[i].line == 0 && BackingStripe(more[i].backing) in need.exclusive
    ensures var s' := Protocol(m', s.copies + more, s.locks[t := need]);
            Guarded(s') && Exclusive(s') && InOrder(s'.copies)
  {
    hide BackingStripe;
    var s' := Protocol(m', s.copies + more, s.locks[t := need]);
    forall i | 0 <= i < |s'.copies|
      ensures s'.copies[i].owner in s'.locks
      ensures BackingStripe(s'.copies[i].backing) in s'.locks[s'.copies[i].owner].exclusive
      ensures s'.copies[i].line > 0 ==> FirstOfOwner(s'.copies, i)
    {
      if i < |s.copies| {
        assert s'.copies[i] == s.copies[i];
        assert s.copies[i].line > 0 ==> FirstOfOwner(s.copies, i);
      } else {
        assert s'.copies[i] == more[i - |s.copies|];
      }
    }
  }

  lemma PublishStepRefines(s: Protocol, step: Step, hash: ContentHash)
    requires Valid(s) && Inv(s.memory) && Pinned(s.memory, s.copies) && CanStep(s, step) && Covered(s, step)
    requires step.PublishAll?
    ensures StepRefines(s, step, hash)
  {
    hide Inv, Run, RecordsKnow, Settled, SameShape, PublishPlan, Pinned, Allocated, Owed, WriteEdits, CopiesOwed, CommitLocks,
         Guarded, Exclusive, InProgress, InOrder, GoodWrites, Compatible, WriteStripes, Withheld, Copies;
    var m, z := s.memory, Settled(s.memory, s.copies);
    var t, writes, cells := step.t, step.writes, step.cells;
    ProgressPinned(m, s.copies);
    SettledSameShape(m, s.copies);
    ShapeKeepsInv(m, z);
    ShapePages(m, z);
    ShapePublish(m, z, t, writes, step.granted, cells, hash);
    if PublishPlan(m, t, writes, step.granted, cells, hash).error != Ok {
      FailedPublishQuiet(m, t, writes, step.granted, cells, hash);
      QuietSettles(m, s.copies, PublishPlan(m, t, writes, step.granted, cells, hash).edits);
      SameCommits(s, s.(memory := Run(m, PublishPlan(m, t, writes, step.granted, cells, hash).edits)));
      ProgressPinned(Run(m, PublishPlan(m, t, writes, step.granted, cells, hash).edits), s.copies);
    } else {
      PublishSucceeds(m, t, writes, step.granted, cells, hash);
      CoveredWrites(s, step);
      PublishedState(s, t, writes, cells, hash);
      var s' := Next(s, step, hash);
      ProgressPinned(s'.memory, s'.copies);
    }
  }

  lemma CoveredWrites(s: Protocol, step: Step)
    requires step.PublishAll? && Covered(s, step) && |step.cells| == |step.writes| && step.t in s.memory.transactions
    ensures forall i :: 0 <= i < |step.writes| && Copies(s.memory, WritePage(step.writes[i])) ==>
              BackingStripe(step.cells[i].id) in WriteStripes(s.memory, step.writes)
  {
  }

  lemma SameCommits(s: Protocol, s': Protocol)
    requires s'.copies == s.copies && s'.locks == s.locks && Guarded(s) && Exclusive(s)
    ensures Guarded(s') && Exclusive(s')
  {
  }

  lemma PublishSucceeds(
    m: Memory, t: TransactionId, writes: seq<PageWrite>, granted: seq<bool>, cells: seq<Fresh>, hash: ContentHash)
    requires Inv(m) && t in m.transactions && |granted| == |cells| == |writes|
    requires PublishPlan(m, t, writes, granted, cells, hash).error == Ok
    ensures CheckWrites(m, writes, 0) == Ok && GoodWrites(m, writes)
    ensures PublishPlan(m, t, writes, granted, cells, hash).edits == WriteEdits(m, t, writes, cells, hash, |writes|)
  {
    hide Inv, GuardEdits, FirstStale, WriteEdits, GoodWrites;
    if CheckWrites(m, writes, 0) == Ok {
      CheckedWritesAreGood(m, writes);
    }
  }

  // ---- The other steps refine ----

  lemma LetGoSettles(m: Memory, copies: seq<Copy>, t: TransactionId, k: nat)
    requires InProgress(m, copies) && forall i :: 0 <= i < |copies| ==> copies[i].owner != t
    ensures InProgress(Run(m, LetGos(t, k)), copies)
    ensures Settled(Run(m, LetGos(t, k)), copies) == Run(Settled(m, copies), LetGos(t, k))
    decreases k
  {
    hide InProgress, Settled, Apply, Disturbs;
    if k == 0 {
      assert LetGos(t, 0) == [];
      NoEdits(m);
      NoEdits(Settled(m, copies));
    } else {
      LetGoSettles(m, copies, t, k - 1);
      assert LetGos(t, k) == LetGos(t, k - 1) + [LetGo(t)];
      RunSnoc(m, LetGos(t, k - 1), LetGo(t));
      RunSnoc(Settled(m, copies), LetGos(t, k - 1), LetGo(t));
      LetGoUndisturbed(Run(m, LetGos(t, k - 1)), copies, t);
      OneEditSettles(Run(m, LetGos(t, k - 1)), copies, LetGo(t));
    }
  }

  lemma LetGoUndisturbed(m: Memory, copies: seq<Copy>, t: TransactionId)
    ensures !Disturbs(m, LetGo(t), copies)
  {
  }

  /** Other bytes in a backing that a copy is owed to. */
  ghost predicate OnlyBytesOf(m: Memory, m': Memory, b: BackingId) {
    && SameShape(m, m')
    && (forall c :: c in m.backings && c != b ==> m'.backings[c] == m.backings[c])
  }

  lemma LineCopied(m: Memory, c: Copy, bytes: PageBytes)
    requires IsInternal(m, c.backing)
    ensures OnlyBytesOf(m, SetBytes(m, c.backing, bytes), c.backing)
    ensures IsInternal(SetBytes(m, c.backing, bytes), c.backing)
    ensures Contents(SetBytes(m, c.backing, bytes), c.backing) == bytes
  {
  }

  /** Line by line: the prefix copied grows by one line. */
  lemma LineGrows(bytes: PageBytes, data: PageBytes, line: nat)
    requires line < LINES && bytes[..line * LINE] == data[..line * LINE]
    ensures WithLine(bytes, data, line)[..(line + 1) * LINE] == data[..(line + 1) * LINE]
  {
    var r := WithLine(bytes, data, line);
    assert r[..line * LINE] == bytes[..line * LINE];
    assert r[..(line + 1) * LINE] == r[..line * LINE] + data[line * LINE..(line + 1) * LINE];
  }

  lemma SameOwner(s: Protocol, i: nat, j: nat)
    requires Guarded(s) && Exclusive(s) && i < |s.copies| && j < |s.copies|
    ensures s.copies[i].backing == s.copies[j].backing ==> s.copies[i].owner == s.copies[j].owner
  {
    var b, c, t, u :=
      BackingStripe(s.copies[i].backing), BackingStripe(s.copies[j].backing), s.copies[i].owner, s.copies[j].owner;
    assert b in s.locks[t].exclusive && c in s.locks[u].exclusive;
  }

  lemma {:induction false} LastCopySame(copies: seq<Copy>, copies': seq<Copy>, b: BackingId)
    requires |copies'| == |copies| && forall i :: 0 <= i < |copies| ==> copies'[i].backing == copies[i].backing
    ensures LastCopy(copies', b) == LastCopy(copies, b)
    decreases |copies|
  {
    if copies != [] {
      LastCopySame(copies[..|copies| - 1], copies'[..|copies| - 1], b);
    }
  }

  lemma CopyingSettles(m: Memory, m': Memory, copies: seq<Copy>, i: nat, line: nat)
    requires i < |copies| && OnlyBytesOf(m, m', copies[i].backing) && Pinned(m, copies)
    ensures Settled(m', copies[i := copies[i].(line := line)]) == Settled(m, copies)
  {
    var copies' := copies[i := copies[i].(line := line)];
    forall b | b in m.backings
      ensures SettledBacking(m'.backings[b], copies', b) == SettledBacking(m.backings[b], copies, b)
    {
      LastCopySame(copies, copies', b);
      IsOwed(copies, i);
    }
    assert SettledMap(m'.backings, copies') == SettledMap(m.backings, copies);
  }

  lemma CopyLineRefines(s: Protocol, i: nat, hash: ContentHash)
    requires Valid(s) && Inv(s.memory) && Pinned(s.memory, s.copies) && CanStep(s, CopyLine(i))
    ensures var s' := Next(s, CopyLine(i), hash);
            Valid(s') && Settled(s'.memory, s'.copies) == Settled(s.memory, s.copies)
  {
    hide Inv, RecordsKnow, Settled, SetBytes, WithLine, BackingStripe, SameShape;
    var m, c, s' := s.memory, s.copies[i], Next(s, CopyLine(i), hash);
    assert Progress(m, c);
    var bytes := WithLine(Contents(m, c.backing), c.data, c.line);
    LineCopied(m, c, bytes);
    LineGrows(Contents(m, c.backing), c.data, c.line);
    CopyingSettles(m, s'.memory, s.copies, i, c.line + 1);
    ShapeKeepsInv(m, s'.memory);
    ShapeKeepsRecords(m, s'.memory);
    ShapeKeepsPins(m, s'.memory, s.copies);
    forall j | 0 <= j < |s.copies| ensures Progress(s'.memory, s'.copies[j]) {
      CopyLineProgress(s, s', i, j);
    }
  }

  lemma CopyLineProgress(s: Protocol, s': Protocol, i: nat, j: nat)
    requires Valid(s) && i < |s.copies| && j < |s.copies| && FirstOfOwner(s.copies, i)
    requires s'.copies == s.copies[i := s.copies[i].(line := s.copies[i].line + 1)] && s.copies[i].line < LINES
    requires OnlyBytesOf(s.memory, s'.memory, s.copies[i].backing)
    requires IsInternal(s'.memory, s.copies[i].backing)
    requires Contents(s'.memory, s.copies[i].backing)[..(s.copies[i].line + 1) * LINE]
          == s.copies[i].data[..(s.copies[i].line + 1) * LINE]
    ensures Progress(s'.memory, s'.copies[j])
  {
    hide Inv, RecordsKnow, BackingStripe;
    assert Progress(s.memory, s.copies[j]);
    if j != i && s.copies[j].backing == s.copies[i].backing {
      SameOwner(s, i, j);
      assert s.copies[j].line == 0;
    }
  }

  lemma ShapeKeepsPins(m: Memory, m': Memory, copies: seq<Copy>)
    requires SameShape(m, m') && Pinned(m, copies)
    ensures Pinned(m', copies)
  {
    forall i | 0 <= i < |copies| ensures IsInternal(m', copies[i].backing) {
      assert IsInternal(m, copies[i].backing);
    }
  }

  function Without(copies: seq<Copy>, i: nat): seq<Copy>
    requires i < |copies|
  {
    copies[..i] + copies[i + 1..]
  }

  lemma WithoutSnoc(copies: seq<Copy>, i: nat)
    requires i < |copies| - 1
    ensures Without(copies, i) == Without(copies[..|copies| - 1], i) + [copies[|copies| - 1]]
  {
  }

  lemma {:induction false} LastCopyWithout(copies: seq<Copy>, i: nat, b: BackingId)
    requires i < |copies| && (copies[i].backing == b ==> forall j :: 0 <= j < i ==> copies[j].backing != b)
    ensures var k, k' := LastCopy(copies, b), LastCopy(Without(copies, i), b);
            if k == Some(i) then k' == None
            else (k.Some? <==> k'.Some?) && (k.Some? ==> Without(copies, i)[k'.value].data == copies[k.value].data)
    decreases |copies|
  {
    hide LastCopy;
    var n := |copies| - 1;
    assert copies == copies[..n] + [copies[n]];
    LastCopyAppended(copies[..n], copies[n], b);
    if i == n {
      assert Without(copies, i) == copies[..n];
    } else {
      LastCopyWithout(copies[..n], i, b);
      WithoutSnoc(copies, i);
      LastCopyAppended(Without(copies[..n], i), copies[n], b);
    }
  }

  lemma EndCopyRefines(s: Protocol, i: nat, hash: ContentHash)
    requires Valid(s) && Inv(s.memory) && Pinned(s.memory, s.copies) && CanStep(s, EndCopy(i))
    ensures var s' := Next(s, EndCopy(i), hash);
            Valid(s') && Settled(s'.memory, s'.copies) == Settled(s.memory, s.copies)
  {
    hide Inv, RecordsKnow, BackingStripe, Contents, Settled, Pinned;
    var c := s.copies[i];
    assert Progress(s.memory, c);
    FewerCopies(s, i);
    forall j | 0 <= j < i ensures s.copies[j].backing != c.backing {
      SameOwner(s, i, j);
    }
    CopiedSettles(s.memory, s.copies, i);
  }

  /** A copy that is done and has no predecessor can be forgotten. */
  lemma CopiedSettles(m: Memory, copies: seq<Copy>, i: nat)
    requires i < |copies| && Progress(m, copies[i]) && copies[i].line == LINES
    requires forall j :: 0 <= j < i ==> copies[j].backing != copies[i].backing
    ensures Settled(m, Without(copies, i)) == Settled(m, copies)
  {
    var c, rest := copies[i], Without(copies, i);
    assert Contents(m, c.backing)[..LINES * LINE] == Contents(m, c.backing) && c.data[..LINES * LINE] == c.data;
    forall b | b in m.backings
      ensures SettledBacking(m.backings[b], rest, b) == SettledBacking(m.backings[b], copies, b)
    {
      LastCopyWithout(copies, i, b);
    }
    assert SettledMap(m.backings, rest) == SettledMap(m.backings, copies);
  }

  lemma FewerCopies(s: Protocol, i: nat)
    requires Valid(s) && i < |s.copies|
    ensures Valid(s.(copies := Without(s.copies, i)))
  {
    hide Inv, RecordsKnow, BackingStripe, Contents;
    var rest := Without(s.copies, i);
    forall j | 0 <= j < |rest|
      ensures rest[j] == s.copies[if j < i then j else j + 1]
      ensures Progress(s.memory, rest[j])
      ensures rest[j].line > 0 ==> FirstOfOwner(rest, j)
    {
      var k := if j < i then j else j + 1;
      assert rest[j] == s.copies[k];
      assert Progress(s.memory, s.copies[k]);
      if rest[j].line > 0 {
        assert FirstOfOwner(s.copies, k);
        forall h | 0 <= h < j ensures rest[h].owner != rest[j].owner {
          assert rest[h] == s.copies[if h < i then h else h + 1];
        }
      }
    }
  }

  lemma ReleaseRefines(s: Protocol, t: TransactionId, hash: ContentHash)
    requires Valid(s) && Inv(s.memory) && Pinned(s.memory, s.copies) && CanStep(s, ReleaseStripes(t))
    ensures Valid(Next(s, ReleaseStripes(t), hash))
  {
    hide InProgress, BackingStripe;
  }

  lemma LetGoRefines(s: Protocol, t: TransactionId, hash: ContentHash)
    requires Valid(s) && Inv(s.memory) && Pinned(s.memory, s.copies) && CanStep(s, LetGoAll(t))
    ensures StepRefines(s, LetGoAll(t), hash)
  {
    hide InProgress, BackingStripe, Settled, SameShape, Inv, Pinned, Run, LetGos;
    var m, z := s.memory, Settled(s.memory, s.copies);
    ProgressPinned(m, s.copies);
    SettledSameShape(m, s.copies);
    ShapeKeepsInv(m, z);
    ShapePages(m, z);
    LetGoSettles(m, s.copies, t, |m.transactions[t].inFlight|);
    SameCommits(s, Next(s, LetGoAll(t), hash));
    ProgressPinned(Next(s, LetGoAll(t), hash).memory, s.copies);
  }

  lemma ServeRefines(s: Protocol, r: Request, hash: ContentHash)
    requires Valid(s) && Inv(s.memory) && Pinned(s.memory, s.copies) && CanStep(s, Serve(r))
    ensures StepRefines(s, Serve(r), hash)
  {
    hide InProgress, BackingStripe, Settled, Inv, Pinned, Run, Compatible, PlanOf, ReplyOf, Ready, Locks;
    RequestRefines(s, r, hash);
    SameCommits(s, Next(s, Serve(r), hash));
    ProgressPinned(Next(s, Serve(r), hash).memory, s.copies);
  }

  /**
   One step of the split protocol, with its owed copies settled, is the same call made in one piece, or
   nothing at all, and gives the same answer.
   */
  lemma ProtocolStep(s: Protocol, step: Step, hash: ContentHash)
    requires Valid(s) && Inv(s.memory) && Pinned(s.memory, s.copies) && CanStep(s, step) && Covered(s, step)
    ensures StepRefines(s, step, hash)
  {
    hide CanStep, Valid, Settled, Inv, Pinned, Covered, SameShape;
    match step
    case Serve(r) => ServeRefines(s, r, hash);
    case PublishAll(_, _, _, _) => PublishStepRefines(s, step, hash);
    case CopyLine(i) =>
      CopyLineRefines(s, i, hash);
      NoCallRefines(s, step, hash);
    case EndCopy(i) =>
      EndCopyRefines(s, i, hash);
      NoCallRefines(s, step, hash);
    case ReleaseStripes(t) =>
      ReleaseRefines(s, t, hash);
      ReleaseKeepsMemory(s, t, hash);
      NoCallRefines(s, step, hash);
    case LetGoAll(t) => LetGoRefines(s, t, hash);
  }

  lemma ReleaseKeepsMemory(s: Protocol, t: TransactionId, hash: ContentHash)
    requires Inv(s.memory) && Pinned(s.memory, s.copies) && CanStep(s, ReleaseStripes(t))
    ensures Settled(Next(s, ReleaseStripes(t), hash).memory, Next(s, ReleaseStripes(t), hash).copies) == Settled(s.memory, s.copies)
  {
  }

  lemma NoCallRefines(s: Protocol, step: Step, hash: ContentHash)
    requires Valid(s) && Inv(s.memory) && Pinned(s.memory, s.copies) && CanStep(s, step)
    requires step.CopyLine? || step.EndCopy? || step.ReleaseStripes?
    requires Valid(Next(s, step, hash))
    requires Settled(Next(s, step, hash).memory, Next(s, step, hash).copies) == Settled(s.memory, s.copies)
    ensures StepRefines(s, step, hash)
  {
    hide Settled, Inv, Guarded, Exclusive, InOrder, InProgress, Pinned, SameShape, CanStep, Next;
    ProgressPinned(s.memory, s.copies);
    ProgressPinned(Next(s, step, hash).memory, Next(s, step, hash).copies);
    SettledSameShape(s.memory, s.copies);
    ShapeKeepsInv(s.memory, Settled(s.memory, s.copies));
  }

  // ---- Runs ----

  lemma ValidHasInv(s: Protocol)
    requires Valid(s)
    ensures Inv(s.memory) && Pinned(s.memory, s.copies)
  {
  }

  /** A schedule the protocol can follow, in which new storage for copied pages is covered. */
  ghost predicate Schedule(s: Protocol, steps: seq<Step>, hash: ContentHash)
    decreases |steps|
  {
    Valid(s) && (steps != [] ==>
      && Inv(s.memory) && Pinned(s.memory, s.copies)
      && CanStep(s, steps[0]) && Covered(s, steps[0])
      && Schedule(Next(s, steps[0], hash), steps[1..], hash))
  }

  ghost function Final(s: Protocol, steps: seq<Step>, hash: ContentHash): Protocol
    requires Schedule(s, steps, hash)
    decreases |steps|
  {
    if steps == [] then s
    else
      ValidHasInv(s);
      Final(Next(s, steps[0], hash), steps[1..], hash)
  }

  ghost function Answers(s: Protocol, steps: seq<Step>, hash: ContentHash): seq<Reply>
    requires Schedule(s, steps, hash)
    decreases |steps|
  {
    if steps == [] then []
    else
      ValidHasInv(s);
      ProtocolStep(s, steps[0], hash);
      [Answer(s.memory, steps[0], hash)] + Answers(Next(s, steps[0], hash), steps[1..], hash)
  }

  /** A run of indivisible calls that ends in `m'` and gives these answers. */
  ghost predicate WholeRun(m: Memory, steps: seq<Step>, hash: ContentHash, m': Memory, answers: seq<Reply>)
    decreases |steps|
  {
    if steps == [] then m' == m && answers == []
    else
      && Inv(m) && CanStepWhole(m, steps[0]) && answers != [] && answers[0] == Answer(m, steps[0], hash)
      && WholeRun(NextWhole(m, steps[0], hash), steps[1..], hash, m', answers[1..])
  }

  /**
   Commits are atomic.  Every schedule of the split protocol, whatever calls run while commits are still
   copying, answers every call as the same calls would when each is made in one piece, in that order, and
   leaves the same memory once the copies it still owes are made.
   */
  lemma {:induction false} SplitCommitsAreAtomic(s: Protocol, steps: seq<Step>, hash: ContentHash)
    requires Schedule(s, steps, hash)
    ensures Valid(Final(s, steps, hash))
    ensures WholeRun(Settled(s.memory, s.copies), steps, hash,
                     Settled(Final(s, steps, hash).memory, Final(s, steps, hash).copies), Answers(s, steps, hash))
    decreases |steps|
  {
    hide Settled, Valid, CanStep, CanStepWhole, Inv, Pinned, Covered, Next, NextWhole, Answer;
    if steps != [] {
      ValidHasInv(s);
      ProtocolStep(s, steps[0], hash);
      SplitCommitsAreAtomic(Next(s, steps[0], hash), steps[1..], hash);
    }
  }

  /** When no copy is owed any more, memory is exactly what the indivisible calls leave. */
  lemma QuiescentIsWhole(s: Protocol, steps: seq<Step>, hash: ContentHash)
    requires Schedule(s, steps, hash) && s.copies == [] && Final(s, steps, hash).copies == []
    ensures WholeRun(s.memory, steps, hash, Final(s, steps, hash).memory, Answers(s, steps, hash))
  {
    hide Settled, Schedule, Final, Answers, WholeRun;
    SplitCommitsAreAtomic(s, steps, hash);
    NothingOwed(s.memory);
    NothingOwed(Final(s, steps, hash).memory);
  }

  // ---- What the stripes keep out, and what they do not ----

  /**
   While a copy is owed, no call that locks a range gets in if a page of that range shows the storage being
   copied to: not through the page itself and not through an alias, whenever the alias was made.
   */
  lemma CopiedPageIsShut(s: Protocol, i: nat, r: Request, a: nat, n: nat, p: nat)
    requires Valid(s) && i < |s.copies| && Ready(s.memory, r)
    requires a + n <= UINT64_MAX && InRange(p, a / PAGE_SIZE, Span(a, n))
    requires RangeStripes(s.memory, a, n) <= Locks(s.memory, r).shared || RangeStripes(s.memory, a, n) <= Locks(s.memory, r).exclusive
    requires Backed(s.memory, p) && BackingOf(s.memory, p) == s.copies[i].backing
    ensures !Compatible(s, Locks(s.memory, r))
  {
    hide InProgress, RangeStripes, MappedStripes, Owed, Span, Locks;
    RangeCovers(s.memory, a, n, p);
    IsOwed(s.copies, i);
    if Compatible(s, Locks(s.memory, r)) {
      StripesClear(s, Locks(s.memory, r),
                   if RangeStripes(s.memory, a, n) <= Locks(s.memory, r).shared then Locks(s.memory, r).shared
                   else Locks(s.memory, r).exclusive, p);
    }
  }

  /** A stripe nobody holds for writing. */
  ghost predicate Open(s: Protocol, stripe: nat) {
    forall t :: t in s.locks ==> stripe !in s.locks[t].exclusive
  }

  /** A stripe nobody holds at all. */
  ghost predicate Untaken(s: Protocol, stripe: nat) {
    forall t :: t in s.locks ==> stripe !in s.locks[t].exclusive && stripe !in s.locks[t].shared
  }

  lemma OnePageRange(m: Memory, p: nat)
    requires p * PAGE_SIZE + PAGE_SIZE <= UINT64_MAX
    ensures RangeOk(p * PAGE_SIZE, PAGE_SIZE) && Span(p * PAGE_SIZE, PAGE_SIZE) == 1
    ensures RangeStripes(m, p * PAGE_SIZE, PAGE_SIZE) == MappedStripes(m, p)
  {
    assert SpanStripes(m, p + 1, 0) == {};
    assert SpanStripes(m, p, 1) == MappedStripes(m, p) + SpanStripes(m, p + 1, 0);
  }

  lemma AliasOnePlan(m: Memory, q: nat, p: nat)
    requires q * PAGE_SIZE + PAGE_SIZE <= UINT64_MAX && p * PAGE_SIZE + PAGE_SIZE <= UINT64_MAX
    requires Backed(m, p) && q !in m.pages
    ensures AliasPlan(m, q * PAGE_SIZE, p * PAGE_SIZE, PAGE_SIZE, Protection(READ_ONLY, false), 1)
         == Plan(Ok, [Alias(q, q, 1, p, Protection(READ_ONLY, false))])
  {
    var edits := AliasEdits(q, p, 1, Protection(READ_ONLY, false));
    assert edits == [Alias(q, q, 1, p, Protection(READ_ONLY, false))];
    assert CheckPages(m, p, 1, true) == CheckPages(m, p + 1, 0, true);
  }

  lemma ReadOnePlan(m: Memory, q: nat)
    requires q * PAGE_SIZE + PAGE_SIZE + (PAGE_SIZE - 1) <= UINT64_MAX && Loadable(m, q)
    requires m.pages[q].protection == Protection(READ_ONLY, false)
    ensures AccessPlan(m, q * PAGE_SIZE, PAGE_SIZE, Read, true, true, None).error == Ok
    ensures AllLoadable(m, q, 1) && Span(q * PAGE_SIZE, PAGE_SIZE) == 1
    ensures Gathered(m, q * PAGE_SIZE, PAGE_SIZE, 1) == LoadPage(m, q)
  {
    OnePageRange(m, q);
    assert CheckAccess(m, q, 1, false, false) == CheckAccess(m, q + 1, 0, false, false);
    assert FirstGuard(m, q, 1) == FirstGuard(m, q + 1, 0);
    assert Gathered(m, q * PAGE_SIZE, PAGE_SIZE, 0) == [];
    assert LoadPage(m, q)[0..PAGE_SIZE] == LoadPage(m, q);
  }

  /** The two calls of the leak: a fresh alias of the page, then a read through it. */
  ghost function AliasOne(q: nat, p: nat): Request {
    AliasRange(q * PAGE_SIZE, p * PAGE_SIZE, PAGE_SIZE, Protection(READ_ONLY, false), 1)
  }

  ghost function ReadOne(q: nat): Request {
    Access(q * PAGE_SIZE, PAGE_SIZE, Read, true, true, None)
  }

  lemma AliasOneResult(m: Memory, q: nat, p: nat)
    requires Inv(m) && Backed(m, p) && q !in m.pages
    ensures var m' := Apply(m, Alias(q, q, 1, p, Protection(READ_ONLY, false)));
            && Inv(m') && Loadable(m', q) && LoadPage(m', q) == LoadPage(m, p)
            && m'.pages[q].protection == Protection(READ_ONLY, false) && BackingOf(m', q) == BackingOf(m, p)
  {
    hide Counted, Stamped;
    InvPreserved(m, Alias(q, q, 1, p, Protection(READ_ONLY, false)));
  }

  lemma PinnedBacking(s: Protocol, i: nat)
    requires Pinned(s.memory, s.copies) && i < |s.copies|
    ensures IsInternal(s.memory, s.copies[i].backing)
  {
  }

  /**
   Where the storage being copied to lies on a stripe that no commit holds for writing, as the fresh copy of
   a write-copy page may, the page can be aliased and read in the middle of the copy.  The reader gets
   what has been copied so far over what was there before.
   */
  lemma UncoveredCopyIsRead(s: Protocol, i: nat, p: nat, q: nat, hash: ContentHash)
    requires Inv(s.memory) && Pinned(s.memory, s.copies) && i < |s.copies|
    requires Backed(s.memory, p) && BackingOf(s.memory, p) == s.copies[i].backing
    requires p * PAGE_SIZE + PAGE_SIZE <= UINT64_MAX && q * PAGE_SIZE + PAGE_SIZE + (PAGE_SIZE - 1) <= UINT64_MAX
    requires q !in s.memory.pages && Untaken(s, AddressStripe(q)) && Open(s, BackingStripe(s.copies[i].backing))
    ensures CanStep(s, Serve(AliasOne(q, p)))
    ensures var s1 := Next(s, Serve(AliasOne(q, p)), hash);
            && Inv(s1.memory) && Pinned(s1.memory, s1.copies) && CanStep(s1, Serve(ReadOne(q)))
            && ReplyOf(s1.memory, ReadOne(q), hash) == Reply(Ok, LoadPage(s.memory, p))
  {
    hide Inv, RecordsKnow, Run, Apply, SpanStripes, RangeStripes, Gathered, AliasPlan, AccessPlan, Span, RangeOk, Pinned, AllLoadable;
    PinnedBacking(s, i);
    var m := s.memory;
    var e := Alias(q, q, 1, p, Protection(READ_ONLY, false));
    OnePageRange(m, p);
    OnePageRange(m, q);
    AliasOnePlan(m, q, p);
    OneEdit(m, e);
    AliasOneResult(m, q, p);
    PinnedKept(m, s.copies, e);
    var m1 := Apply(m, e);
    OnePageRange(m1, q);
    ReadOnePlan(m1, q);
    assert MappedStripes(m, q) == {AddressStripe(q)};
    assert MappedStripes(m1, q) == {AddressStripe(q), BackingStripe(s.copies[i].backing)};
  }

  // ---- A torn read ----

  /** One write to a write-copy page, by a transaction with no records: what is published and owed. */
  lemma PublishOne(m: Memory, t: TransactionId, p: nat, data: PageBytes, cell: Fresh, hash: ContentHash)
    requires Inv(m) && t in m.transactions && m.transactions[t] == Transaction([], [])
    requires Copies(m, p) && !m.pages[p].protection.guard && Allocated(m, [cell])
    ensures var writes := [PageWrite(p * PAGE_SIZE, Some(data))];
            && GoodWrites(m, writes) && PublishPlan(m, t, writes, [true], [cell], hash).error == Ok
            && CopiesOwed(m, t, writes, [cell], 1) == [Copy(t, cell.id, data, 0)]
            && WriteStripes(m, writes) == MappedStripes(m, p)
    ensures var m1 := Run(m, WriteEdits(m, t, Withheld(m, [PageWrite(p * PAGE_SIZE, Some(data))]), [cell], hash, 1));
            && Inv(m1) && Backed(m1, p) && BackingOf(m1, p) == cell.id && m1.pages.Keys == m.pages.Keys
            && Loadable(m, p) && Loadable(m1, p) && LoadPage(m1, p) == LoadPage(m, p) && IsInternal(m1, cell.id)
            && Pinned(m1, [Copy(t, cell.id, data, 0)])
  {
    hide Inv, Run, Apply, Pinned, Enabled, Allocated, MappedStripes;
    var w := PageWrite(p * PAGE_SIZE, Some(data));
    var writes := [w];
    assert WritePage(w) == p && writes[1..] == [];
    assert WriteStripes(m, writes[1..]) == {};
    assert CheckWrites(m, writes, 1) == Ok;
    assert WriteError(m, writes, 0) == Ok by {
      MappedIsBackedOk(m, p);
    }
    assert FirstObstacle(m, writes, [true], 1) == Clear;
    assert FirstStale(m, [], hash) == None;
    CheckedWritesAreGood(m, writes);
    assert CopiesOwed(m, t, writes, [cell], 0) == [];
    OneWritten(m, t, w, cell, hash);
  }

  lemma MappedIsBackedOk(m: Memory, p: nat)
    requires Copies(m, p)
    ensures AccessError(m, p, true, false) == Ok
  {
  }

  lemma OneWritten(m: Memory, t: TransactionId, w: PageWrite, cell: Fresh, hash: ContentHash)
    requires Inv(m) && t in m.transactions && m.transactions[t] == Transaction([], [])
    requires w.data.Some? && Copies(m, WritePage(w)) && Allocated(m, [cell]) && GoodWrites(m, [w])
    ensures var m1, p := Run(m, WriteEdits(m, t, Withheld(m, [w]), [cell], hash, 1)), WritePage(w);
            && Inv(m1) && Backed(m1, p) && BackingOf(m1, p) == cell.id && m1.pages.Keys == m.pages.Keys
            && Loadable(m, p) && Loadable(m1, p) && LoadPage(m1, p) == LoadPage(m, p) && IsInternal(m1, cell.id)
            && Pinned(m1, [Copy(t, cell.id, w.data.value, 0)])
  {
    hide Inv, Run, Apply, Pinned, Enabled, Allocated, Shares;
    var p, held := WritePage(w), Withheld(m, [w]);
    var bytes := held[0].data.value;
    assert WritePage(held[0]) == p;
    InvLoadable(m, p);
    NoneOwedPinned(m);
    SplitRun(m, [], t, [w], [cell], hash, 1);
    assert CopiesOwed(m, t, [w], [cell], 0) == [];
    assert [] + CopiesOwed(m, t, [w], [cell], 1) == [Copy(t, cell.id, w.data.value, 0)];
    WritesRun(m, t, held, [cell], hash, 1);
    assert OneStorage(m, held, 1, p, p);
    assert ContentAfter(m, held, 1, p) == bytes == LoadPage(m, p);
    NothingCommitted(m, t, held, [cell]);
    PublishEnabled(m, m, t, held, [cell], 0);
    var publish := PublishEdit(m, p, cell, bytes);
    PublishHome(m, p, publish.copy, bytes);
    assert WriteEdits(m, t, held, [cell], hash, 0) == [];
    assert RecordEdit(m, t, p, bytes, hash) == [];
    assert WriteEdits(m, t, held, [cell], hash, 1) == [publish, Hold(t, p)];
    TwoEdits(m, publish, Hold(t, p));
    InvPreserved(m, publish);
    KindKept(Apply(m, publish), Hold(t, p));
    PinMoveFrame(Apply(m, publish), Hold(t, p));
  }

  lemma NoneOwedPinned(m: Memory)
    ensures Pinned(m, [])
  {
  }

  predicate LineDiffers(before: PageBytes, data: PageBytes, i: nat)
    requires i < LINES
  {
    before[i * LINE..(i + 1) * LINE] != data[i * LINE..(i + 1) * LINE]
  }

  lemma SplitEqual(a: seq<Byte>, b: seq<Byte>, x: nat)
    requires |a| == |b| && x <= |a|
    ensures a == b <==> a[..x] == b[..x] && a[x..] == b[x..]
  {
    assert a == a[..x] + a[x..] && b == b[..x] + b[x..];
  }

  lemma {:induction false} SameUpTo(before: PageBytes, data: PageBytes, k: nat)
    requires k <= LINES
    ensures before[..k * LINE] == data[..k * LINE] <==> forall i: nat :: i < k ==> !LineDiffers(before, data, i)
    decreases k
  {
    if k > 0 {
      var j := k - 1;
      SameUpTo(before, data, j);
      assert LineDiffers(before, data, j) <==> before[j * LINE..k * LINE] != data[j * LINE..k * LINE];
      SplitEqual(before[..k * LINE], data[..k * LINE], j * LINE);
      assert before[..k * LINE][..j * LINE] == before[..j * LINE] && data[..k * LINE][..j * LINE] == data[..j * LINE];
      assert before[..k * LINE][j * LINE..] == before[j * LINE..k * LINE] && data[..k * LINE][j * LINE..] == data[j * LINE..k * LINE];
    }
  }

  lemma {:induction false} SameFrom(before: PageBytes, data: PageBytes, k: nat)
    requires k <= LINES
    ensures before[k * LINE..] == data[k * LINE..] <==> forall i: nat :: k <= i < LINES ==> !LineDiffers(before, data, i)
    decreases LINES - k
  {
    if k < LINES {
      var j := k + 1;
      SameFrom(before, data, j);
      assert LineDiffers(before, data, k) <==> before[k * LINE..j * LINE] != data[k * LINE..j * LINE];
      SplitEqual(before[k * LINE..], data[k * LINE..], LINE);
      assert before[k * LINE..][..LINE] == before[k * LINE..j * LINE] && data[k * LINE..][..LINE] == data[k * LINE..j * LINE];
      assert before[k * LINE..][LINE..] == before[j * LINE..] && data[k * LINE..][LINE..] == data[j * LINE..];
    }
  }

  /** A page half copied is another one than before if a copied line differs, and than afterwards if one still to copy does. */
  lemma BlendIsTorn(before: PageBytes, data: PageBytes, k: nat)
    requires k <= LINES
    ensures Blend(before, data, k) != before <==> exists i: nat :: i < k && LineDiffers(before, data, i)
    ensures Blend(before, data, k) != data <==> exists i: nat :: k <= i < LINES && LineDiffers(before, data, i)
  {
    hide LineDiffers;
    SameUpTo(before, data, k);
    SameFrom(before, data, k);
    var blend := Blend(before, data, k);
    assert before == before[..k * LINE] + before[k * LINE..] && data == data[..k * LINE] + data[k * LINE..];
    assert blend[..k * LINE] == data[..k * LINE] && blend[k * LINE..] == before[k * LINE..];
  }

  /** The protocol after copying `k` lines of the copy owed first. */
  ghost predicate CopiedLines(s: Protocol, s': Protocol, k: nat, hash: ContentHash)
    decreases k
  {
    if k == 0 then s' == s
    else
      exists between: Protocol ::
        && CopiedLines(s, between, k - 1, hash)
        && Inv(between.memory) && Pinned(between.memory, between.copies) && CanStep(between, CopyLine(0))
        && s' == Next(between, CopyLine(0), hash)
  }

  /** A page whose storage is being copied to, `k` lines of it done. */
  ghost predicate BeingCopied(s: Protocol, c: Copy, p: nat, before: PageBytes, k: nat) {
    && k <= LINES && s.copies == [c.(line := k)] && Inv(s.memory) && Pinned(s.memory, s.copies)
    && Backed(s.memory, p) && BackingOf(s.memory, p) == c.backing && IsInternal(s.memory, c.backing)
    && Contents(s.memory, c.backing) == Blend(before, c.data, k)
  }

  lemma NextLine(s: Protocol, c: Copy, p: nat, before: PageBytes, k: nat, hash: ContentHash)
    requires BeingCopied(s, c, p, before, k) && k < LINES
    ensures CanStep(s, CopyLine(0))
    ensures var s' := Next(s, CopyLine(0), hash);
            BeingCopied(s', c, p, before, k + 1) && s'.locks == s.locks && s'.memory.pages == s.memory.pages
  {
    hide Inv, SetBytes, WithLine, Blend, SameShape;
    var m := s.memory;
    var bytes := WithLine(Contents(m, c.backing), c.data, k);
    assert s.copies[0] == c.(line := k);
    LineCopied(m, c, bytes);
    BlendLine(before, c.data, k);
    HalfCopied(m, SetBytes(m, c.backing, bytes), c, p, k);
    assert Next(s, CopyLine(0), hash).copies == [c.(line := k + 1)];
  }

  lemma {:induction false} CopyingLines(s: Protocol, c: Copy, p: nat, before: PageBytes, k: nat, hash: ContentHash)
    returns (s': Protocol)
    requires BeingCopied(s, c, p, before, 0) && k <= LINES
    ensures CopiedLines(s, s', k, hash) && BeingCopied(s', c, p, before, k)
    ensures s'.locks == s.locks && s'.memory.pages == s.memory.pages
    decreases k
  {
    hide CanStep, BeingCopied, Next;
    if k == 0 {
      s' := s;
    } else {
      var between := CopyingLines(s, c, p, before, k - 1, hash);
      NextLine(between, c, p, before, k - 1, hash);
      CopiedHas(between, c, p, before, k - 1);
      s' := Next(between, CopyLine(0), hash);
      assert CopiedLines(s, between, k - 1, hash);
    }
  }

  lemma CopiedHas(s: Protocol, c: Copy, p: nat, before: PageBytes, k: nat)
    requires BeingCopied(s, c, p, before, k)
    ensures Inv(s.memory) && Pinned(s.memory, s.copies)
  {
  }

  /**
   A torn read.  A commit of one page that is write-copy, whose fresh copy lies on a stripe other than the
   page's own two, can be interrupted after any number of lines by an alias and a read.  The read returns those
   lines of the new page and the rest of the old one: neither of the two, if each part has a line that differs.
   */
  lemma TornRead(
    m: Memory, t: TransactionId, p: nat, data: PageBytes, cell: Fresh, q: nat, k: nat, hash: ContentHash)
    returns (s2: Protocol)
    requires Inv(m) && t in m.transactions && m.transactions[t] == Transaction([], [])
    requires Copies(m, p) && !m.pages[p].protection.guard && Allocated(m, [cell])
    requires p * PAGE_SIZE + PAGE_SIZE <= UINT64_MAX && q * PAGE_SIZE + PAGE_SIZE + (PAGE_SIZE - 1) <= UINT64_MAX
    requires q !in m.pages && AddressStripe(q) !in MappedStripes(m, p) && BackingStripe(cell.id) !in MappedStripes(m, p)
    requires Loadable(m, p) && k <= LINES
    ensures var s, publish := Protocol(m, [], map[]), PublishAll(t, [PageWrite(p * PAGE_SIZE, Some(data))], [true], [cell]);
            && Pinned(m, []) && CanStep(s, publish)
            && CopiedLines(Next(s, publish, hash), s2, k, hash)
            && Inv(s2.memory) && Pinned(s2.memory, s2.copies) && CanStep(s2, Serve(AliasOne(q, p)))
            && var s3 := Next(s2, Serve(AliasOne(q, p)), hash);
            && Inv(s3.memory) && Pinned(s3.memory, s3.copies) && CanStep(s3, Serve(ReadOne(q)))
            && var read := ReplyOf(s3.memory, ReadOne(q), hash);
            && read == Reply(Ok, Blend(LoadPage(m, p), data, k))
            && (read.bytes != LoadPage(m, p) && read.bytes != data <==>
                  && (exists i: nat :: i < k && LineDiffers(LoadPage(m, p), data, i))
                  && (exists i: nat :: k <= i < LINES && LineDiffers(LoadPage(m, p), data, i)))
  {
    hide Inv, Run, Apply, WriteEdits, CopiesOwed, PublishPlan, Allocated, MappedStripes, WriteStripes, Withheld, WithLine,
         SetBytes, AliasOne, ReadOne, PlanOf, ReplyOf, SameShape, GoodWrites, LineDiffers, CopiedLines, Blend;
    var writes := [PageWrite(p * PAGE_SIZE, Some(data))];
    var s, publish := Protocol(m, [], map[]), PublishAll(t, writes, [true], [cell]);
    NoneOwedPinned(m);
    PublishOne(m, t, p, data, cell, hash);
    PublishSucceeds(m, t, writes, [true], [cell], hash);
    var s1 := Next(s, publish, hash);
    var c := Copy(t, cell.id, data, 0);
    assert s1.copies == [c];
    NoLinesYet(LoadPage(m, p), data);
    s2 := CopyingLines(s1, c, p, LoadPage(m, p), k, hash);
    assert s2.locks == map[t := CommitLocks(m, t, writes)];
    UncoveredCopyIsRead(s2, 0, p, q, hash);
    CopiedPage(s2, c, p, LoadPage(m, p), k);
    BlendIsTorn(LoadPage(m, p), data, k);
  }

  lemma CopiedPage(s: Protocol, c: Copy, p: nat, before: PageBytes, k: nat)
    requires BeingCopied(s, c, p, before, k)
    ensures Loadable(s.memory, p) && LoadPage(s.memory, p) == Blend(before, c.data, k)
  {
  }

  lemma HalfCopied(m: Memory, m': Memory, c: Copy, p: nat, k: nat)
    requires Inv(m) && OnlyBytesOf(m, m', c.backing) && Pinned(m, [c.(line := k)]) && Backed(m, p) && BackingOf(m, p) == c.backing
    requires IsInternal(m', c.backing)
    ensures Inv(m') && Pinned(m', [c.(line := k + 1)]) && Backed(m', p) && BackingOf(m', p) == c.backing
    ensures m'.pages == m.pages
  {
    hide Inv;
    ShapeKeepsInv(m, m');
    ShapeKeepsPins(m, m', [c.(line := k)]);
    assert Pinned(m', [c.(line := k)]);
    assert [c.(line := k)][0] == c.(line := k);
  }
}

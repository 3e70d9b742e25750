/**
 The optimistic transaction: recording pages, validating accesses, and the all-or-nothing page commit.
 */
module TransactionCalls {
  import opened Options
  import opened GuestMemory
  import opened MemoryInvariants
  import opened OptimisticValidation
  import opened MappingCalls
  import opened MappingEffects
  import opened MappingTheorems
  import opened PagedAccess

  const MAX_DEPENDENCIES := 256
  const MAX_WRITES := 64

  /** The first record of a page. */
  function FindDependency(ds: seq<Dependency>, p: nat): (i: Option<nat>)
    ensures i.Some? ==> i.value < |ds| && ds[i.value].page == p
    ensures i.None? ==> forall k :: 0 <= k < |ds| ==> ds[k].page != p
  {
    if ds == [] then None
    else if ds[0].page == p then Some(0)
    else
      var i := FindDependency(ds[1..], p);
      if i.None? then None else Some(i.value + 1)
  }

  /** A transaction never records a page twice, nor more pages than it has room for. */
  ghost predicate OneRecordEach(m: Memory, t: TransactionId) {
    t in m.transactions ==>
      var ds := m.transactions[t].dependencies;
      |ds| <= MAX_DEPENDENCIES && forall i, j :: 0 <= i < j < |ds| ==> ds[i].page != ds[j].page
  }

  /** The hash recorded for a page: of its content if the caller owns it, else nothing. */
  function RecordedHash(m: Memory, p: nat, hash: ContentHash): nat
    requires Backed(m, p) && ReadableBacking(m, BackingOf(m, p))
  {
    if m.backings[BackingOf(m, p)].data.External? then hash(LoadPage(m, p)) else 0
  }

  // ---- Which edits leave a record current ----

  /** One record for each page, and each says truly whether the caller owns its page. */
  ghost predicate Orderly(m: Memory, t: TransactionId) {
    && t in m.transactions && OneRecordEach(m, t)
    && forall i: nat :: i < |m.transactions[t].dependencies| ==> RecordKnows(m, m.transactions[t].dependencies[i])
  }

  /** Records that were current still are, and records that were not there before are current now. */
  ghost predicate RecordsFollow(m: Memory, m': Memory, t: TransactionId, hash: ContentHash) {
    && t in m.transactions && t in m'.transactions
    && var ds, ds' := m.transactions[t].dependencies, m'.transactions[t].dependencies;
    && |ds| <= |ds'|
    && forall i: nat :: i < |ds'| && (i < |ds| ==> Current(m, ds[i], hash)) ==> Current(m', ds'[i], hash)
  }

  lemma FollowRefl(m: Memory, t: TransactionId, hash: ContentHash)
    requires t in m.transactions
    ensures RecordsFollow(m, m, t, hash)
  {
  }

  lemma FollowTrans(m: Memory, m1: Memory, m2: Memory, t: TransactionId, hash: ContentHash)
    requires RecordsFollow(m, m1, t, hash) && RecordsFollow(m1, m2, t, hash)
    ensures RecordsFollow(m, m2, t, hash)
  {
    hide Current;
  }

  /** Only counts of references moved, or backings nobody pointed at went. */
  ghost predicate OnlyCountsMoved(m: Memory, m': Memory) {
    && m'.pages == m.pages && m'.host == m.host && m'.generation == m.generation
    && (forall b :: b in m'.backings ==> b in m.backings && BackingKept(m, m', b))
  }

  /** A record stays current, or stale, while only counts move. */
  lemma CountsKeepCurrent(m: Memory, m': Memory, d: Dependency, hash: ContentHash)
    requires Inv(m') && OnlyCountsMoved(m, m')
    ensures Current(m', d, hash) <==> Current(m, d, hash)
  {
    hide Stamped, Counted;
    if Backed(m, d.page) {
      MappedIsBacked(m', d.page);
    }
  }

  lemma PinFrame(m: Memory, t: TransactionId, p: nat, h: nat)
    requires Enabled(m, Pin(t, p, h))
    ensures OnlyCountsMoved(m, Apply(m, Pin(t, p, h))) && Apply(m, Pin(t, p, h)).backings.Keys == m.backings.Keys
    ensures t in Apply(m, Pin(t, p, h)).transactions
    ensures Apply(m, Pin(t, p, h)).transactions[t].dependencies == m.transactions[t].dependencies + [Observe(m, p, h)]
  {
  }

  /** A pin records its page as it is, and leaves the other records what they were. */
  lemma PinIsCurrent(m: Memory, t: TransactionId, p: nat, hash: ContentHash)
    requires Inv(m) && Orderly(m, t) && Loadable(m, p)
    requires FindDependency(m.transactions[t].dependencies, p).None? && |m.transactions[t].dependencies| < MAX_DEPENDENCIES
    ensures var m' := Apply(m, Pin(t, p, RecordedHash(m, p, hash)));
            && Orderly(m', t) && RecordsFollow(m, m', t, hash)
            && m'.transactions[t].dependencies == m.transactions[t].dependencies + [Observe(m, p, RecordedHash(m, p, hash))]
            && Current(m', Observe(m, p, RecordedHash(m, p, hash)), hash)
  {
    hide Inv, Apply, Current, FindDependency, Contents;
    var h := RecordedHash(m, p, hash);
    var m' := Apply(m, Pin(t, p, h));
    InvPreserved(m, Pin(t, p, h));
    PinFrame(m, t, p, h);
    var ds, ds' := m.transactions[t].dependencies, m'.transactions[t].dependencies;
    ObservedIsCurrent(m, p, hash);
    forall i: nat | i < |ds'| && (i < |ds| ==> Current(m, ds[i], hash)) ensures Current(m', ds'[i], hash) {
      CountsKeepCurrent(m, m', ds'[i], hash);
    }
    forall i: nat | i < |ds'| ensures RecordKnows(m', ds'[i]) {
      if i < |ds| {
        DependencyAlive(m, t, i);
        assert RecordKnows(m, ds[i]);
      }
    }
    assert Current(m', ds'[|ds|], hash);
  }

  lemma DependencyAlive(m: Memory, t: TransactionId, i: nat)
    requires Inv(m) && HasDependency(m, t, i)
    ensures m.transactions[t].dependencies[i].backing in m.backings
  {
    HolderAlive(m, DependencyRef(t, i));
  }

  lemma ObservedIsCurrent(m: Memory, p: nat, hash: ContentHash)
    requires Loadable(m, p)
    ensures Current(m, Observe(m, p, RecordedHash(m, p, hash)), hash)
  {
  }

  lemma RefreshFrame(m: Memory, t: TransactionId, i: nat, h: nat)
    requires Enabled(m, Refresh(t, i, h))
    ensures OnlyCountsMoved(m, Apply(m, Refresh(t, i, h))) && t in Apply(m, Refresh(t, i, h)).transactions
    ensures var ds := m.transactions[t].dependencies;
            Apply(m, Refresh(t, i, h)).transactions[t].dependencies == ds[i := Observe(m, ds[i].page, h)]
  {
  }

  /** A refreshed record shows its page as it is now, and the other records are what they were. */
  lemma RefreshIsCurrent(m: Memory, t: TransactionId, i: nat, hash: ContentHash)
    requires Inv(m) && HasDependency(m, t, i) && Loadable(m, m.transactions[t].dependencies[i].page)
    ensures var ds := m.transactions[t].dependencies;
            var m' := Apply(m, Refresh(t, i, RecordedHash(m, ds[i].page, hash)));
            && OnlyCountsMoved(m, m') && t in m'.transactions && |m'.transactions[t].dependencies| == |ds|
            && (forall j: nat :: j < |ds| && j != i ==> m'.transactions[t].dependencies[j] == ds[j])
            && m'.transactions[t].dependencies[i].page == ds[i].page && RecordKnows(m', m'.transactions[t].dependencies[i])
            && Current(m', m'.transactions[t].dependencies[i], hash)
            && forall d: Dependency :: Current(m', d, hash) <==> Current(m, d, hash)
  {
    hide Inv, Apply, Current, Contents;
    var p := m.transactions[t].dependencies[i].page;
    var e := Refresh(t, i, RecordedHash(m, p, hash));
    InvPreserved(m, e);
    RefreshFrame(m, t, i, RecordedHash(m, p, hash));
    InvCounted(Apply(m, e));
    MappedIsBacked(Apply(m, e), p);
    ObservedIsCurrent(m, p, hash);
    forall d: Dependency ensures Current(Apply(m, e), d, hash) <==> Current(m, d, hash) {
      CountsKeepCurrent(m, Apply(m, e), d, hash);
    }
  }

  /** A record whose page still has the recorded backing, stamp and protection. */
  ghost predicate PageAsRecorded(m: Memory, d: Dependency) {
    && Backed(m, d.page) && BackingOf(m, d.page) == d.backing
    && m.pages[d.page].generation == d.generation && m.pages[d.page].protection == d.protection
  }

  /** A guard taken off a page and off its record: the edits of a guard hit. */
  function GuardHit(t: TransactionId, i: nat, d: Dependency, h: nat): seq<Edit> {
    [Protect(d.page, Unguarded(d.protection)), RefreshGuard(t, i, h)]
  }

  lemma GuardHitFrame(m: Memory, t: TransactionId, i: nat, h: nat)
    requires HasDependency(m, t, i) && PageAsRecorded(m, m.transactions[t].dependencies[i])
    ensures var ds := m.transactions[t].dependencies;
            var m' := Apply(Apply(m, Protect(ds[i].page, Unguarded(ds[i].protection))), RefreshGuard(t, i, h));
            && m'.backings == m.backings && m'.host == m.host
            && m'.pages == GuardCleared(m, ds[i].page).pages && m'.generation == m.generation + 1
            && m'.transactions.Keys == m.transactions.Keys
            && (forall u :: u in m.transactions && u != t ==> m'.transactions[u] == m.transactions[u])
            && t in m'.transactions && m'.transactions[t].dependencies == ds[
                 i := ds[i].(generation := m.generation + 1, protection := Unguarded(ds[i].protection), contentHash := h)]
  {
  }

  /**
   A guard hit brings the record up to date exactly when the content was not stored to since it was recorded,
   and the new hash of a caller-owned page is right.  The other records are what they were.
   */
  lemma GuardHitIsCurrent(m: Memory, t: TransactionId, i: nat, h: nat, hash: ContentHash)
    requires Inv(m) && Orderly(m, t) && HasDependency(m, t, i) && PageAsRecorded(m, m.transactions[t].dependencies[i])
    ensures var d := m.transactions[t].dependencies[i];
            var m' := Run(m, GuardHit(t, i, d, h));
            && Orderly(m', t) && |m'.transactions[t].dependencies| == |m.transactions[t].dependencies|
            && Loadable(m, d.page)
            && (Current(m', m'.transactions[t].dependencies[i], hash) <==>
                  m.backings[d.backing].generation == d.contentGeneration && (d.external ==> h == RecordedHash(m, d.page, hash)))
            && ((d.external && h != d.contentHash ==> h == RecordedHash(m, d.page, hash)) ==> RecordsFollow(m, m', t, hash))
            && (forall j: nat :: j < |m.transactions[t].dependencies| && j != i ==>
                  && m'.transactions[t].dependencies[j] == m.transactions[t].dependencies[j]
                  && (Current(m', m.transactions[t].dependencies[j], hash) <==>
                        Current(m, m.transactions[t].dependencies[j], hash)))
  {
    hide Run, Apply, Counted, Stamped;
    var ds := m.transactions[t].dependencies;
    var d := ds[i];
    TwoEdits(m, Protect(d.page, Unguarded(d.protection)), RefreshGuard(t, i, h));
    GuardHitFrame(m, t, i, h);
    assert RecordKnows(m, d);
  }

  // ---- Snapshot ----

  ghost function SnapshotPlan(m: Memory, t: TransactionId, address: nat, hash: ContentHash): Plan
    requires t in m.transactions && HostsKnown(m)
  {
    var p := address / PAGE_SIZE;
    if address % PAGE_SIZE != 0 then Plan(InvalidArgument, [])
    else if p !in m.pages then Plan(NotReserved, [])
    else if !Backed(m, p) then Plan(NotCommitted, [])
    else
      var ds := m.transactions[t].dependencies;
      var i := FindDependency(ds, p);
      if i.None? then
        if |ds| == MAX_DEPENDENCIES then Plan(NoMemory, []) else Plan(Ok, [Pin(t, p, RecordedHash(m, p, hash))])
      else if Current(m, ds[i.value], hash) then Plan(Ok, [])
      else Plan(Conflict, [])
  }

  lemma PinResult(m: Memory, t: TransactionId, p: nat, hash: ContentHash)
    requires t in m.transactions && Loadable(m, p)
    ensures var m' := Run(m, [Pin(t, p, RecordedHash(m, p, hash))]);
            var d := Observe(m, p, RecordedHash(m, p, hash));
            && m'.pages == m.pages && m'.host == m.host && m'.generation == m.generation
            && m'.transactions == m.transactions[t := m.transactions[t].(
                 dependencies := m.transactions[t].dependencies + [d])]
            && d.page == p && Current(m', d, hash)
  {
    hide Run;
    OneEdit(m, Pin(t, p, RecordedHash(m, p, hash)));
    assert Apply(m, Pin(t, p, RecordedHash(m, p, hash))) == PinPage(m, t, p, RecordedHash(m, p, hash));
  }

  /** The page is mapped to the recorded storage, with the recorded stamps, protection and, if it is the caller's, content. */
  ghost predicate AsRecorded(m: Memory, d: Dependency, hash: ContentHash) {
    && d.page in m.pages && m.pages[d.page].backing == Some(d.backing) && d.backing in m.backings
    && m.pages[d.page].generation == d.generation && m.backings[d.backing].generation == d.contentGeneration
    && m.pages[d.page].protection == d.protection
    && (d.external ==>
          match m.backings[d.backing].data
          case Internal(bytes) => hash(bytes) == d.contentHash
          case External(h) => h in m.host && hash(m.host[h]) == d.contentHash)
  }

  /** What a record of a page says when it is taken. */
  ghost predicate RecordOf(m: Memory, d: Dependency, p: nat, hash: ContentHash) {
    && d.page == p && AsRecorded(m, d, hash)
    && (d.external <==> m.backings[d.backing].data.External?)
  }

  ghost predicate NotRecorded(m: Memory, t: TransactionId, p: nat)
    requires t in m.transactions
  {
    forall i :: 0 <= i < |m.transactions[t].dependencies| ==> m.transactions[t].dependencies[i].page != p
  }

  /** What a snapshot reports. */
  ghost predicate SnapshotOutcome(m: Memory, t: TransactionId, address: nat, hash: ContentHash, e: Error)
    requires t in m.transactions
  {
    var p, ds := address / 4096, m.transactions[t].dependencies;
    if address % 4096 != 0 then e == InvalidArgument
    else if p !in m.pages then e == NotReserved
    else if m.pages[p].backing == None then e == NotCommitted
    else if NotRecorded(m, t, p) then e == if |ds| >= 256 then NoMemory else Ok
    else forall i :: 0 <= i < |ds| && ds[i].page == p ==> e == if AsRecorded(m, ds[i], hash) then Ok else Conflict
  }

  lemma SnapshotDecides(m: Memory, t: TransactionId, address: nat, hash: ContentHash)
    requires Inv(m) && t in m.transactions && OneRecordEach(m, t)
    ensures SnapshotOutcome(m, t, address, hash, SnapshotPlan(m, t, address, hash).error)
  {
    hide Counted, Stamped, Current, AsRecorded, RecordedHash;
    CurrentAsRecorded(m, hash);
    var p := address / PAGE_SIZE;
    if p in m.pages && m.pages[p].backing.Some? {
      MappedIsBacked(m, p);
    }
  }

  /**
   A successful snapshot leaves a current record of the page, one more record if there was none; a failed one leaves
   no trace.  It succeeds exactly on a committed page that is not recorded yet, with room for a record, or is as
   recorded.
   */
  lemma SnapshotCall(m: Memory, t: TransactionId, address: nat, hash: ContentHash)
    requires Inv(m) && t in m.transactions && OneRecordEach(m, t)
    ensures var plan := SnapshotPlan(m, t, address, hash);
            var m' := Run(m, plan.edits);
            && Inv(m') && OneRecordEach(m', t) && t in m'.transactions
            && (Orderly(m, t) ==> Orderly(m', t) && RecordsFollow(m, m', t, hash))
            && (plan.error != Ok ==> m' == m)
            && (plan.error == Ok ==>
                  && m'.pages == m.pages && Loadable(m', address / PAGE_SIZE)
                  && LoadPage(m', address / PAGE_SIZE) == LoadPage(m, address / PAGE_SIZE)
                  && exists i: nat :: i < |m'.transactions[t].dependencies|
                       && m'.transactions[t].dependencies[i].page == address / PAGE_SIZE
                       && Current(m', m'.transactions[t].dependencies[i], hash))
            && var p, ds := address / 4096, m.transactions[t].dependencies;
            && SnapshotOutcome(m, t, address, hash, plan.error)
            && (plan.error == Ok && NotRecorded(m, t, p) ==>
                  && |m'.transactions[t].dependencies| == |ds| + 1 && m'.transactions[t].dependencies[..|ds|] == ds
                  && RecordOf(m, m'.transactions[t].dependencies[|ds|], p, hash))
            && (plan.error == Ok && !NotRecorded(m, t, p) ==> m' == m)
  {
    hide Counted, Stamped, Run, Current, Orderly, RecordsFollow, AsRecorded, SnapshotOutcome;
    SnapshotDecides(m, t, address, hash);
    var plan := SnapshotPlan(m, t, address, hash);
    var p := address / PAGE_SIZE;
    NoEdits(m);
    FollowRefl(m, t, hash);
    InvOverRun(m, plan.edits);
    if plan.error == Ok {
      var m' := Run(m, plan.edits);
      if plan.edits != [] {
        PinResult(m, t, p, hash);
        ObservedRecord(m, p, hash);
        if Orderly(m, t) {
          PinIsCurrent(m, t, p, hash);
          OneEdit(m, Pin(t, p, RecordedHash(m, p, hash)));
        }
        MappedIsBacked(m', p);
        PinKeepsBytes(m, t, p, hash);
        assert m'.transactions[t].dependencies[|m.transactions[t].dependencies|].page == p;
      }
    }
  }

  lemma CurrentAsRecorded(m: Memory, hash: ContentHash)
    ensures forall d: Dependency :: AsRecorded(m, d, hash) <==> Current(m, d, hash)
  {
  }

  lemma ObservedRecord(m: Memory, p: nat, hash: ContentHash)
    requires Loadable(m, p)
    ensures RecordOf(m, Observe(m, p, RecordedHash(m, p, hash)), p, hash)
  {
  }

  lemma PinKeepsBytes(m: Memory, t: TransactionId, p: nat, hash: ContentHash)
    requires t in m.transactions && Loadable(m, p)
    ensures var m' := Run(m, [Pin(t, p, RecordedHash(m, p, hash))]);
            Loadable(m', p) && LoadPage(m', p) == LoadPage(m, p)
  {
    hide Run;
    OneEdit(m, Pin(t, p, RecordedHash(m, p, hash)));
    assert Apply(m, Pin(t, p, RecordedHash(m, p, hash))) == PinPage(m, t, p, RecordedHash(m, p, hash));
  }

  /**
   Snapshot isolation: two successful snapshots of one page by one transaction return the same bytes,
   whatever ran in between, as long as the transaction's own record of the page stood.
   */
  lemma SnapshotsAgree(
    m: Memory, edits: seq<Edit>, t: TransactionId, i: nat, d: Dependency, hash: ContentHash)
    requires Inv(m) && Inv(Run(m, edits)) && RecordedThroughout(m, edits, t, i, d) && OneRecordEach(Run(m, edits), t)
    requires Current(m, d, hash) && IsInternal(m, d.backing)
    requires t in Run(m, edits).transactions
    requires SnapshotPlan(Run(m, edits), t, d.page * PAGE_SIZE, hash).error == Ok
    ensures Loadable(m, d.page) && Loadable(Run(m, edits), d.page)
    ensures LoadPage(Run(m, edits), d.page) == LoadPage(m, d.page)
  {
    hide Counted, Stamped;
    var m' := Run(m, edits);
    RecordedAtEnd(m, edits, t, i, d);
    var ds := m'.transactions[t].dependencies;
    assert FindDependency(ds, d.page) == Some(i);
    assert edits[..|edits|] == edits;
    ValidationIsSound(m, edits, t, i, d, hash, |edits|);
  }

  lemma {:induction false} RecordedAtEnd(m: Memory, edits: seq<Edit>, t: TransactionId, i: nat, d: Dependency)
    requires RecordedThroughout(m, edits, t, i, d)
    ensures Recorded(Run(m, edits), t, i, d)
    decreases |edits|
  {
    if edits != [] {
      RecordedAtEnd(Apply(m, edits[0]), edits[1..], t, i, d);
    }
  }

  // ---- Validate ----

  datatype Verdict = Verdict(error: Error, stop: bool, edits: seq<Edit>)

  /** One page of `validate`: recorded if it is not yet, then checked against its record. */
  ghost function ValidatePage(
    m: Memory, t: TransactionId, p: nat, write: bool, execute: bool, hash: ContentHash): Verdict
    requires t in m.transactions && Inv(m)
  {
    var ds := m.transactions[t].dependencies;
    var i := FindDependency(ds, p);
    if i.None? && |ds| == MAX_DEPENDENCIES then Verdict(NoMemory, true, [])
    else if i.None? && p !in m.pages then Verdict(NotReserved, true, [])
    else if i.None? && !Backed(m, p) then Verdict(NotCommitted, true, [])
    else
      var pin := if i.None? then [Pin(t, p, RecordedHash(m, p, hash))] else [];
      var d := if i.None? then Observe(m, p, RecordedHash(m, p, hash)) else ds[i.value];
      var at := if i.None? then |ds| else i.value;
      if !Allowed(d.protection, write, execute) then Verdict(AccessDenied, true, pin)
      else if d.protection.guard then
        if !Backed(m, p) || BackingOf(m, p) != d.backing || m.pages[p].generation != d.generation
           || m.pages[p].protection != d.protection
        then Verdict(Conflict, true, pin)
        else Verdict(GuardPage, true,
                     pin + [Protect(p, Unguarded(d.protection)), RefreshGuard(t, at, RecordedHash(m, p, hash))])
      else Verdict(Ok, false, pin)
  }

  /** `validate`: the pages of a range in turn, up to the first that stops it. */
  ghost function ValidatePages(
    m: Memory, t: TransactionId, first: nat, count: nat, write: bool, execute: bool, hash: ContentHash): Plan
    requires t in m.transactions && Inv(m)
    decreases count
  {
    if count == 0 then Plan(Ok, [])
    else
      var v := ValidatePage(m, t, first, write, execute, hash);
      if v.stop then Plan(v.error, v.edits)
      else
        ValidateSteps(m, t, first, write, execute, hash);
        var rest := ValidatePages(Run(m, v.edits), t, first + 1, count - 1, write, execute, hash);
        Plan(rest.error, v.edits + rest.edits)
  }

  /** `validate` on a byte range. */
  ghost function ValidatePlan(
    m: Memory, t: TransactionId, address: nat, size: nat, write: bool, execute: bool, hash: ContentHash): Plan
    requires t in m.transactions && Inv(m)
  {
    if write && execute then Plan(InvalidArgument, [])
    else if size == 0 then Plan(Ok, [])
    else if address + size > UINT64_MAX then Plan(Overflow, [])
    else ValidatePages(m, t, address / PAGE_SIZE, Span(address, size), write, execute, hash)
  }

  /** The pages keep their records; one more record at most, and it is current. */
  ghost predicate RecordsKept(m: Memory, m': Memory, t: TransactionId) {
    && t in m.transactions && t in m'.transactions
    && var ds, ds' := m.transactions[t].dependencies, m'.transactions[t].dependencies;
    |ds| <= |ds'| && ds'[..|ds|] == ds
  }

  lemma ValidateSteps(m: Memory, t: TransactionId, p: nat, write: bool, execute: bool, hash: ContentHash)
    requires t in m.transactions && Inv(m) && !ValidatePage(m, t, p, write, execute, hash).stop
    ensures var m' := Run(m, ValidatePage(m, t, p, write, execute, hash).edits);
            && Inv(m') && RecordsKept(m, m', t) && m'.pages == m.pages && m'.host == m.host
            && (OneRecordEach(m, t) ==> OneRecordEach(m', t))
            && exists i: nat ::
                 && i < |m'.transactions[t].dependencies| && m'.transactions[t].dependencies[i].page == p
                 && Allowed(m'.transactions[t].dependencies[i].protection, write, execute)
                 && !m'.transactions[t].dependencies[i].protection.guard
  {
    hide Counted, Stamped, Run;
    var v := ValidatePage(m, t, p, write, execute, hash);
    NoEdits(m);
    InvOverRun(m, v.edits);
    var i := FindDependency(m.transactions[t].dependencies, p);
    if i.None? {
      PinResult(m, t, p, hash);
      assert Run(m, v.edits).transactions[t].dependencies[|m.transactions[t].dependencies|].page == p;
    }
  }

  /** One page of `validate`, whatever comes of it, leaves every current record current, and its own new one. */
  lemma ValidatedRecords(m: Memory, t: TransactionId, p: nat, write: bool, execute: bool, hash: ContentHash)
    requires Inv(m) && Orderly(m, t)
    ensures var m' := Run(m, ValidatePage(m, t, p, write, execute, hash).edits);
            Orderly(m', t) && RecordsFollow(m, m', t, hash)
  {
    hide Inv, Run, Apply, Current, Orderly, RecordsFollow, RecordedHash, FindDependency, Allowed;
    OrderlyHas(m, t);
    var v := ValidatePage(m, t, p, write, execute, hash);
    NoEdits(m);
    FollowRefl(m, t, hash);
    var ds := m.transactions[t].dependencies;
    var i := FindDependency(ds, p);
    if v.edits == [] {
    } else if i.None? {
      InvLoadable(m, p);
      var h := RecordedHash(m, p, hash);
      NewRecord(m, t, p, hash);
      var m1 := Apply(m, Pin(t, p, h));
      OneEdit(m, Pin(t, p, h));
      if |v.edits| > 1 {
        assert v.edits == [Pin(t, p, h)] + GuardHit(t, |ds|, Observe(m, p, h), h);
        RunAppend(m, [Pin(t, p, h)], GuardHit(t, |ds|, Observe(m, p, h), h));
        GuardedRecord(m1, t, |ds|, hash);
        FollowTrans(m, m1, Run(m, v.edits), t, hash);
      }
    } else {
      InvLoadable(m, p);
      assert v.edits == GuardHit(t, i.value, ds[i.value], RecordedHash(m, p, hash));
      GuardedRecord(m, t, i.value, hash);
    }
  }

  lemma OrderlyHas(m: Memory, t: TransactionId)
    requires Orderly(m, t)
    ensures t in m.transactions && |m.transactions[t].dependencies| <= MAX_DEPENDENCIES
  {
  }

  /** What a pin adds, and that the new record agrees with its page. */
  lemma NewRecord(m: Memory, t: TransactionId, p: nat, hash: ContentHash)
    requires Inv(m) && Orderly(m, t) && Loadable(m, p)
    requires FindDependency(m.transactions[t].dependencies, p).None? && |m.transactions[t].dependencies| < MAX_DEPENDENCIES
    ensures var h := RecordedHash(m, p, hash);
            var m' := Apply(m, Pin(t, p, h));
            && Inv(m') && Orderly(m', t) && RecordsFollow(m, m', t, hash) && t in m'.transactions
            && m'.transactions[t].dependencies == m.transactions[t].dependencies + [Observe(m, p, h)]
            && PageAsRecorded(m', Observe(m, p, h)) && Loadable(m', p) && RecordedHash(m', p, hash) == h
  {
    hide Inv, Apply, Orderly, RecordsFollow, FindDependency, Contents;
    OrderlyHas(m, t);
    PinIsCurrent(m, t, p, hash);
    InvPreserved(m, Pin(t, p, RecordedHash(m, p, hash)));
    PinFrame(m, t, p, RecordedHash(m, p, hash));
    SameContents(m, Apply(m, Pin(t, p, RecordedHash(m, p, hash))), p);
  }

  lemma SameContents(m: Memory, m': Memory, p: nat)
    requires Loadable(m, p) && OnlyCountsMoved(m, m') && m'.backings.Keys == m.backings.Keys
    ensures Loadable(m', p) && LoadPage(m', p) == LoadPage(m, p)
  {
  }

  lemma GuardedRecord(m: Memory, t: TransactionId, i: nat, hash: ContentHash)
    requires Inv(m) && Orderly(m, t) && HasDependency(m, t, i) && PageAsRecorded(m, m.transactions[t].dependencies[i])
    ensures var d := m.transactions[t].dependencies[i];
            Loadable(m, d.page)
            && var m' := Run(m, GuardHit(t, i, d, RecordedHash(m, d.page, hash)));
            Orderly(m', t) && RecordsFollow(m, m', t, hash)
  {
    hide Run, Current, Orderly, RecordsFollow, RecordedHash, Counted, Stamped;
    GuardHitIsCurrent(m, t, i, RecordedHash(m, m.transactions[t].dependencies[i].page, hash), hash);
  }

  lemma {:induction false} FindAppended(ds: seq<Dependency>, d: Dependency, p: nat)
    requires FindDependency(ds, p).None?
    ensures FindDependency(ds + [d], p) == if d.page == p then Some(|ds|) else None
    decreases |ds|
  {
    if ds == [] {
      assert ([] + [d])[1..] == [];
    } else {
      assert (ds + [d])[1..] == ds[1..] + [d];
      FindAppended(ds[1..], d, p);
    }
  }

  // ---- What validate reports ----

  /** How many of the pages `first .. first + k` have no record yet. */
  ghost function Unrecorded(m: Memory, t: TransactionId, first: nat, k: nat): nat
    requires t in m.transactions
  {
    if k == 0 then 0
    else Unrecorded(m, t, first, k - 1) + if FindDependency(m.transactions[t].dependencies, first + (k - 1)).None? then 1 else 0
  }

  /** What validate makes of a page when the transaction has so many records. */
  ghost function PageOutcome(m: Memory, t: TransactionId, p: nat, records: nat, write: bool, execute: bool): Error
    requires t in m.transactions
  {
    var ds := m.transactions[t].dependencies;
    var i := FindDependency(ds, p);
    if i.None? then
      if records >= 256 then NoMemory
      else if p !in m.pages then NotReserved
      else if m.pages[p].backing == None then NotCommitted
      else if !Permits(m.pages[p].protection, write, execute) then AccessDenied
      else if m.pages[p].protection.guard then GuardPage
      else Ok
    else
      var d := ds[i.value];
      if !Permits(d.protection, write, execute) then AccessDenied
      else if !d.protection.guard then Ok
      else if p in m.pages && m.pages[p].backing == Some(d.backing) && m.pages[p].generation == d.generation
              && m.pages[p].protection == d.protection
      then GuardPage
      else Conflict
  }

  /** What validate makes of the k-th page of a range, the pages before it having been recorded. */
  ghost function OutcomeAt(m: Memory, t: TransactionId, first: nat, k: nat, write: bool, execute: bool): Error
    requires t in m.transactions
  {
    PageOutcome(m, t, first + k, |m.transactions[t].dependencies| + Unrecorded(m, t, first, k), write, execute)
  }

  /** Every page passes, or the first that does not decides the error. */
  ghost predicate RangeOutcome(m: Memory, t: TransactionId, first: nat, count: nat, write: bool, execute: bool, e: Error)
    requires t in m.transactions
  {
    if forall k: nat :: k < count ==> OutcomeAt(m, t, first, k, write, execute) == Ok then e == Ok
    else exists k: nat :: k < count && OutcomeAt(m, t, first, k, write, execute) == e != Ok
                          && forall j: nat :: j < k ==> OutcomeAt(m, t, first, j, write, execute) == Ok
  }

  lemma PageDecides(m: Memory, t: TransactionId, p: nat, write: bool, execute: bool, hash: ContentHash)
    requires Inv(m) && t in m.transactions && OneRecordEach(m, t) && !(write && execute)
    ensures ValidatePage(m, t, p, write, execute, hash).error
         == PageOutcome(m, t, p, |m.transactions[t].dependencies|, write, execute)
  {
    hide Counted, Stamped, RecordedHash;
    if p in m.pages && m.pages[p].backing.Some? {
      MappedIsBacked(m, p);
    }
  }

  /** The records after one page has passed: as before, or one more, of that page. */
  ghost predicate OneMoreRecord(m: Memory, m1: Memory, t: TransactionId, p: nat) {
    && t in m.transactions && t in m1.transactions && m1.pages == m.pages
    && var ds, ds1 := m.transactions[t].dependencies, m1.transactions[t].dependencies;
    if FindDependency(ds, p).Some? then ds1 == ds else |ds1| == |ds| + 1 && ds1[..|ds|] == ds && ds1[|ds|].page == p
  }

  lemma PassedRecords(m: Memory, t: TransactionId, p: nat, write: bool, execute: bool, hash: ContentHash)
    requires Inv(m) && t in m.transactions && !ValidatePage(m, t, p, write, execute, hash).stop
    ensures OneMoreRecord(m, Run(m, ValidatePage(m, t, p, write, execute, hash).edits), t, p)
  {
    hide Counted, Stamped, Run, FindDependency, RecordedHash, Allowed;
    NoEdits(m);
    if FindDependency(m.transactions[t].dependencies, p).None? {
      PinResult(m, t, p, hash);
    }
  }

  lemma SameRecords(m: Memory, m1: Memory, t: TransactionId, p: nat, q: nat)
    requires OneMoreRecord(m, m1, t, p) && q != p
    ensures FindDependency(m1.transactions[t].dependencies, q) == FindDependency(m.transactions[t].dependencies, q)
    ensures forall i: nat :: i < |m.transactions[t].dependencies| ==>
              i < |m1.transactions[t].dependencies| && m1.transactions[t].dependencies[i] == m.transactions[t].dependencies[i]
  {
    hide FindDependency;
    var ds, ds1 := m.transactions[t].dependencies, m1.transactions[t].dependencies;
    if FindDependency(ds, p).None? {
      assert ds1 == ds + [ds1[|ds|]];
      if FindDependency(ds, q).None? {
        FindAppended(ds, ds1[|ds|], q);
      } else {
        FindPrefix(ds, ds1[|ds|], q);
      }
    }
  }

  lemma {:induction false} FindPrefix(ds: seq<Dependency>, d: Dependency, p: nat)
    requires FindDependency(ds, p).Some?
    ensures FindDependency(ds + [d], p) == FindDependency(ds, p)
    decreases |ds|
  {
    assert (ds + [d])[0] == ds[0] && (ds + [d])[1..] == ds[1..] + [d];
    if ds[0].page != p {
      FindPrefix(ds[1..], d, p);
    }
  }

  /** Counted from the first page, or from the second with the first one's record there. */
  lemma {:induction false} UnrecordedShift(m: Memory, m1: Memory, t: TransactionId, first: nat, k: nat)
    requires OneMoreRecord(m, m1, t, first)
    ensures |m1.transactions[t].dependencies| + Unrecorded(m1, t, first + 1, k)
         == |m.transactions[t].dependencies| + Unrecorded(m, t, first, k + 1)
    decreases k
  {
    hide FindDependency;
    if k == 0 {
      assert Unrecorded(m, t, first, 1) == Unrecorded(m, t, first, 0)
          + if FindDependency(m.transactions[t].dependencies, first).None? then 1 else 0;
    } else {
      UnrecordedShift(m, m1, t, first, k - 1);
      SameRecords(m, m1, t, first, first + k);
    }
  }

  lemma OutcomeShift(m: Memory, m1: Memory, t: TransactionId, first: nat, k: nat, write: bool, execute: bool)
    requires OneMoreRecord(m, m1, t, first)
    ensures OutcomeAt(m1, t, first + 1, k, write, execute) == OutcomeAt(m, t, first, k + 1, write, execute)
  {
    hide FindDependency, Unrecorded, Permits;
    UnrecordedShift(m, m1, t, first, k);
    SameRecords(m, m1, t, first, first + k + 1);
  }

  lemma RangeShift(m: Memory, m1: Memory, t: TransactionId, first: nat, count: nat, write: bool, execute: bool, e: Error)
    requires OneMoreRecord(m, m1, t, first) && count > 0 && OutcomeAt(m, t, first, 0, write, execute) == Ok
    requires RangeOutcome(m1, t, first + 1, count - 1, write, execute, e)
    ensures RangeOutcome(m, t, first, count, write, execute, e)
  {
    hide OneMoreRecord, OutcomeAt;
    var next := first + 1;
    RecordStays(m, m1, t, first);
    forall k: nat | k < count
      ensures k > 0 ==> OutcomeAt(m, t, first, k, write, execute) == OutcomeAt(m1, t, next, k - 1, write, execute)
    {
      if k > 0 {
        OutcomeShift(m, m1, t, first, k - 1, write, execute);
      }
    }
    if exists k: nat :: k < count - 1 && OutcomeAt(m1, t, next, k, write, execute) != Ok {
      var k: nat :| k < count - 1 && OutcomeAt(m1, t, next, k, write, execute) == e != Ok
                    && forall j: nat :: j < k ==> OutcomeAt(m1, t, next, j, write, execute) == Ok;
      OutcomeShift(m, m1, t, first, k, write, execute);
      assert OutcomeAt(m, t, first, k + 1, write, execute) == e;
    }
  }

  lemma RecordStays(m: Memory, m1: Memory, t: TransactionId, p: nat)
    requires OneMoreRecord(m, m1, t, p)
    ensures t in m.transactions && t in m1.transactions
  {
  }

  lemma {:induction false} ValidateDecides(
    m: Memory, t: TransactionId, first: nat, count: nat, write: bool, execute: bool, hash: ContentHash)
    requires Inv(m) && t in m.transactions && OneRecordEach(m, t) && !(write && execute)
    ensures RangeOutcome(m, t, first, count, write, execute, ValidatePages(m, t, first, count, write, execute, hash).error)
    decreases count
  {
    hide Inv, Run, ValidatePage, OneRecordEach, PageOutcome, OneMoreRecord, RangeOutcome, FindDependency;
    if count == 0 {
      NoOutcome(m, t, first, write, execute);
    } else {
      PageDecides(m, t, first, write, execute, hash);
      StopIsError(m, t, first, write, execute, hash);
      assert OutcomeAt(m, t, first, 0, write, execute) == ValidatePage(m, t, first, write, execute, hash).error;
      var v := ValidatePage(m, t, first, write, execute, hash);
      if v.stop {
        FirstOutcome(m, t, first, count, write, execute);
      } else {
        ValidateSteps(m, t, first, write, execute, hash);
        PassedRecords(m, t, first, write, execute, hash);
        ValidateDecides(Run(m, v.edits), t, first + 1, count - 1, write, execute, hash);
        RangeShift(m, Run(m, v.edits), t, first, count, write, execute,
                   ValidatePages(Run(m, v.edits), t, first + 1, count - 1, write, execute, hash).error);
      }
    }
  }

  lemma NoOutcome(m: Memory, t: TransactionId, first: nat, write: bool, execute: bool)
    requires t in m.transactions
    ensures RangeOutcome(m, t, first, 0, write, execute, Ok)
  {
  }

  lemma FirstOutcome(m: Memory, t: TransactionId, first: nat, count: nat, write: bool, execute: bool)
    requires t in m.transactions && count > 0 && OutcomeAt(m, t, first, 0, write, execute) != Ok
    ensures RangeOutcome(m, t, first, count, write, execute, OutcomeAt(m, t, first, 0, write, execute))
  {
    hide OutcomeAt;
  }

  /** Nothing but records and pins of one transaction was added. */
  ghost predicate OnlyRecorded(m: Memory, m': Memory, t: TransactionId) {
    && RecordsKept(m, m', t)
    && m'.pages == m.pages && m'.host == m.host && m'.generation == m.generation
    && m'.backings.Keys == m.backings.Keys && (forall b :: b in m.backings ==> BackingKept(m, m', b))
    && m'.transactions.Keys == m.transactions.Keys
    && (forall u :: u in m.transactions && u != t ==> m'.transactions[u] == m.transactions[u])
  }

  /** And, besides, one armed guard of the range was taken off its page, which was stamped for it. */
  ghost predicate GuardTaken(m: Memory, m': Memory, t: TransactionId, first: nat, count: nat) {
    exists p: nat :: first <= p < first + count && GuardTakenAt(m, m', t, p)
  }

  ghost predicate GuardTakenAt(m: Memory, m': Memory, t: TransactionId, p: nat) {
    && p in m.pages && m.pages[p].protection.guard
    && m'.pages == m.pages[p := m.pages[p].(protection := m.pages[p].protection.(guard := false), generation := m.generation + 1)]
    && m'.host == m.host && m'.generation == m.generation + 1
    && m'.backings.Keys == m.backings.Keys && (forall b :: b in m.backings ==> BackingKept(m, m', b))
    && m'.transactions.Keys == m.transactions.Keys
    && (forall u :: u in m.transactions && u != t ==> m'.transactions[u] == m.transactions[u])
  }

  ghost predicate ValidateEffect(m: Memory, m': Memory, t: TransactionId, first: nat, count: nat, e: Error) {
    if e == GuardPage then GuardTaken(m, m', t, first, count) else OnlyRecorded(m, m', t)
  }

  lemma PinOnlyRecords(m: Memory, t: TransactionId, p: nat, h: nat)
    requires Enabled(m, Pin(t, p, h))
    ensures OnlyRecorded(m, Apply(m, Pin(t, p, h)), t)
  {
    assert Apply(m, Pin(t, p, h)) == PinPage(m, t, p, h);
  }

  lemma GuardHitTakes(m: Memory, m1: Memory, t: TransactionId, i: nat, h: nat)
    requires OnlyRecorded(m, m1, t) && HasDependency(m1, t, i) && PageAsRecorded(m1, m1.transactions[t].dependencies[i])
    requires m1.transactions[t].dependencies[i].protection.guard
    ensures GuardTakenAt(m, Run(m1, GuardHit(t, i, m1.transactions[t].dependencies[i], h)), t, m1.transactions[t].dependencies[i].page)
  {
    hide Run, Apply;
    var d := m1.transactions[t].dependencies[i];
    TwoEdits(m1, Protect(d.page, Unguarded(d.protection)), RefreshGuard(t, i, h));
    GuardHitFrame(m1, t, i, h);
  }

  lemma RecordsSame(m: Memory, t: TransactionId)
    requires t in m.transactions
    ensures OnlyRecorded(m, m, t)
  {
  }

  lemma PageEffect(m: Memory, t: TransactionId, p: nat, write: bool, execute: bool, hash: ContentHash)
    requires Inv(m) && t in m.transactions
    ensures var v := ValidatePage(m, t, p, write, execute, hash);
            var m' := Run(m, v.edits);
            if v.error == GuardPage then GuardTakenAt(m, m', t, p) else OnlyRecorded(m, m', t)
  {
    hide Counted, Stamped, Run, Apply, FindDependency, RecordedHash, Allowed, OnlyRecorded, GuardTakenAt;
    var v := ValidatePage(m, t, p, write, execute, hash);
    NoEdits(m);
    RecordsSame(m, t);
    var ds := m.transactions[t].dependencies;
    var i := FindDependency(ds, p);
    if v.edits == [] {
    } else if i.None? {
      var h := RecordedHash(m, p, hash);
      PinOnlyRecords(m, t, p, h);
      OneEdit(m, Pin(t, p, h));
      PinFrame(m, t, p, h);
      var m1 := Apply(m, Pin(t, p, h));
      if |v.edits| > 1 {
        assert v.edits == [Pin(t, p, h)] + GuardHit(t, |ds|, Observe(m, p, h), h);
        RunAppend(m, [Pin(t, p, h)], GuardHit(t, |ds|, Observe(m, p, h), h));
        GuardHitTakes(m, m1, t, |ds|, h);
      }
    } else {
      assert v.edits == GuardHit(t, i.value, ds[i.value], RecordedHash(m, p, hash));
      GuardHitTakes(m, m, t, i.value, RecordedHash(m, p, hash));
    }
  }

  lemma RecordedTrans(m: Memory, m1: Memory, m2: Memory, t: TransactionId)
    requires OnlyRecorded(m, m1, t) && OnlyRecorded(m1, m2, t)
    ensures OnlyRecorded(m, m2, t)
  {
    RecordsTrans(m, m1, m2, t);
  }

  lemma RecordedThenTaken(m: Memory, m1: Memory, m2: Memory, t: TransactionId, p: nat)
    requires OnlyRecorded(m, m1, t) && GuardTakenAt(m1, m2, t, p)
    ensures GuardTakenAt(m, m2, t, p)
  {
  }

  lemma {:induction false} ValidateEffects(
    m: Memory, t: TransactionId, first: nat, count: nat, write: bool, execute: bool, hash: ContentHash)
    requires Inv(m) && t in m.transactions
    ensures var plan := ValidatePages(m, t, first, count, write, execute, hash);
            ValidateEffect(m, Run(m, plan.edits), t, first, count, plan.error)
    decreases count
  {
    hide Inv, Run, ValidatePage, OnlyRecorded, GuardTakenAt;
    NoEdits(m);
    RecordsSame(m, t);
    if count > 0 {
      StopIsError(m, t, first, write, execute, hash);
      PageEffect(m, t, first, write, execute, hash);
      var v := ValidatePage(m, t, first, write, execute, hash);
      if !v.stop {
        ValidateSteps(m, t, first, write, execute, hash);
        var m1 := Run(m, v.edits);
        ValidateEffects(m1, t, first + 1, count - 1, write, execute, hash);
        var rest := ValidatePages(m1, t, first + 1, count - 1, write, execute, hash);
        RunAppend(m, v.edits, rest.edits);
        if rest.error == GuardPage {
          var p: nat :| first + 1 <= p < first + count && GuardTakenAt(m1, Run(m1, rest.edits), t, p);
          RecordedThenTaken(m, m1, Run(m1, rest.edits), t, p);
        } else {
          RecordedTrans(m, m1, Run(m1, rest.edits), t);
        }
      }
    }
  }

  /** A record of this page that allows the access with no guard in the way. */
  ghost predicate Validated(m: Memory, t: TransactionId, p: nat, write: bool, execute: bool) {
    && t in m.transactions
    && exists i: nat ::
         && i < |m.transactions[t].dependencies| && m.transactions[t].dependencies[i].page == p
         && Allowed(m.transactions[t].dependencies[i].protection, write, execute)
         && !m.transactions[t].dependencies[i].protection.guard
  }

  /**
   After a successful `validate` every page of the range has a record that allows the access.  However it ends,
   the records it makes are current, and those that were current still are.
   */
  lemma ValidateCall(
    m: Memory, t: TransactionId, address: nat, size: nat, write: bool, execute: bool, hash: ContentHash)
    requires Inv(m) && t in m.transactions
    ensures var plan := ValidatePlan(m, t, address, size, write, execute, hash);
            var m' := Run(m, plan.edits);
            && Inv(m')
            && (Orderly(m, t) ==> Orderly(m', t) && RecordsFollow(m, m', t, hash))
            && (plan.error == Ok ==>
                  && RecordsKept(m, m', t) && m'.pages == m.pages && m'.host == m.host
                  && (OneRecordEach(m, t) ==> OneRecordEach(m', t))
                  && forall p: nat :: InRange(p, address / PAGE_SIZE, Span(address, size)) ==>
                       Validated(m', t, p, write, execute))
            && (OneRecordEach(m, t) ==>
                  if write && execute then plan.error == InvalidArgument
                  else if size == 0 then plan.error == Ok
                  else if address + size > 0xFFFF_FFFF_FFFF_FFFF then plan.error == Overflow
                  else RangeOutcome(m, t, address / 4096, (address + size - 1) / 4096 - address / 4096 + 1, write, execute, plan.error))
            && ValidateEffect(m, m', t, address / PAGE_SIZE, Span(address, size), plan.error)
  {
    hide Inv, Run, OneRecordEach, Validated, Orderly, RecordsFollow, RangeOutcome, OnlyRecorded, GuardTaken;
    RecordsSame(m, t);
    ValidateEffects(m, t, address / PAGE_SIZE, Span(address, size), write, execute, hash);
    if OneRecordEach(m, t) && !(write && execute) && size > 0 {
      SpanIsTouched(address, size);
      ValidateDecides(m, t, address / PAGE_SIZE, Span(address, size), write, execute, hash);
    }
    NoEdits(m);
    FollowRefl(m, t, hash);
    ValidatePagesCall(m, t, address / PAGE_SIZE, Span(address, size), write, execute, hash);
  }

  lemma {:induction false} ValidatePagesCall(
    m: Memory, t: TransactionId, first: nat, count: nat, write: bool, execute: bool, hash: ContentHash)
    requires Inv(m) && t in m.transactions
    ensures var plan := ValidatePages(m, t, first, count, write, execute, hash);
            var m' := Run(m, plan.edits);
            && Inv(m')
            && (Orderly(m, t) ==> Orderly(m', t) && RecordsFollow(m, m', t, hash))
            && (plan.error == Ok ==>
                  && RecordsKept(m, m', t) && m'.pages == m.pages && m'.host == m.host
                  && (OneRecordEach(m, t) ==> OneRecordEach(m', t))
                  && forall p: nat :: InRange(p, first, count) ==> Validated(m', t, p, write, execute))
    decreases count
  {
    hide Inv, Run, ValidatePage, OneRecordEach, Allowed, Orderly, RecordsFollow;
    var plan := ValidatePages(m, t, first, count, write, execute, hash);
    InvOverRun(m, plan.edits);
    NoEdits(m);
    FollowRefl(m, t, hash);
    if count > 0 {
      StopIsError(m, t, first, write, execute, hash);
      var v := ValidatePage(m, t, first, write, execute, hash);
      if Orderly(m, t) {
        ValidatedRecords(m, t, first, write, execute, hash);
      }
      if !v.stop {
        ValidateSteps(m, t, first, write, execute, hash);
        var m1 := Run(m, v.edits);
        ValidatePagesCall(m1, t, first + 1, count - 1, write, execute, hash);
        var rest := ValidatePages(m1, t, first + 1, count - 1, write, execute, hash);
        RunAppend(m, v.edits, rest.edits);
        if Orderly(m, t) {
          FollowTrans(m, m1, Run(m1, rest.edits), t, hash);
        }
        if plan.error == Ok {
          RecordsTrans(m, m1, Run(m1, rest.edits), t);
          StaysValidated(m1, Run(m1, rest.edits), t, first, write, execute);
        }
      }
    }
  }

  lemma StopIsError(m: Memory, t: TransactionId, p: nat, write: bool, execute: bool, hash: ContentHash)
    requires t in m.transactions && Inv(m)
    ensures ValidatePage(m, t, p, write, execute, hash).stop <==> ValidatePage(m, t, p, write, execute, hash).error != Ok
  {
  }

  lemma RecordsTrans(m: Memory, m1: Memory, m2: Memory, t: TransactionId)
    requires RecordsKept(m, m1, t) && RecordsKept(m1, m2, t)
    ensures RecordsKept(m, m2, t)
  {
    var ds, ds1, ds2 :=
      m.transactions[t].dependencies, m1.transactions[t].dependencies, m2.transactions[t].dependencies;
    assert ds2[..|ds|] == ds2[..|ds1|][..|ds|];
  }

  lemma StaysValidated(m: Memory, m': Memory, t: TransactionId, p: nat, write: bool, execute: bool)
    requires RecordsKept(m, m', t) && Validated(m, t, p, write, execute)
    ensures Validated(m', t, p, write, execute)
  {
    var ds, ds' := m.transactions[t].dependencies, m'.transactions[t].dependencies;
    var i: nat :| i < |ds| && ds[i].page == p && Allowed(ds[i].protection, write, execute) && !ds[i].protection.guard;
    assert ds'[i] == ds'[..|ds|][i];
  }

  // ---- Finish ----

  /** The first record that is no longer current. */
  ghost function FirstStale(m: Memory, ds: seq<Dependency>, hash: ContentHash): (i: Option<nat>)
    ensures i.Some? ==> i.value < |ds| && !Current(m, ds[i.value], hash)
    ensures forall k :: 0 <= k < (if i.Some? then i.value else |ds|) ==> Current(m, ds[k], hash)
  {
    if ds == [] then None
    else if !Current(m, ds[0], hash) then Some(0)
    else
      var i := FirstStale(m, ds[1..], hash);
      if i.None? then None else Some(i.value + 1)
  }

  datatype FinishResult = FinishResult(error: Error, fault: Option<nat>)

  ghost function Finish(m: Memory, t: TransactionId, hash: ContentHash): FinishResult
    requires t in m.transactions
  {
    var ds := m.transactions[t].dependencies;
    var i := FirstStale(m, ds, hash);
    if i.None? then FinishResult(Ok, None) else FinishResult(Conflict, Some(ds[i.value].page))
  }

  /** `finish` succeeds exactly if every page is as recorded; otherwise it names the first that is not. */
  lemma FinishDecides(m: Memory, t: TransactionId, hash: ContentHash)
    requires t in m.transactions
    ensures var ds, r := m.transactions[t].dependencies, Finish(m, t, hash);
            if forall i :: 0 <= i < |ds| ==> AsRecorded(m, ds[i], hash) then r == FinishResult(Ok, None)
            else exists i :: 0 <= i < |ds| && !AsRecorded(m, ds[i], hash) && r == FinishResult(Conflict, Some(ds[i].page))
                             && forall j :: 0 <= j < i ==> AsRecorded(m, ds[j], hash)
  {
    hide Current, AsRecorded;
    CurrentAsRecorded(m, hash);
  }

  /**
   The promise of the transaction: when `finish` succeeds, every owned page it recorded is mapped to the
   same backing, with the same bytes and protection, as in any earlier state where the record was current.
   */
  lemma FinishCall(m: Memory, edits: seq<Edit>, t: TransactionId, i: nat, d: Dependency, hash: ContentHash)
    requires Inv(m) && RecordedThroughout(m, edits, t, i, d) && Current(m, d, hash)
    requires t in Run(m, edits).transactions && Finish(Run(m, edits), t, hash).error == Ok
    ensures Unmoved(m, Run(m, edits), d)
    ensures IsInternal(m, d.backing) ==>
              Contents(Run(m, edits), d.backing) == Contents(m, d.backing)
              && Run(m, edits).pages[d.page].protection == d.protection
  {
    RecordedAtEnd(m, edits, t, i, d);
    assert edits[..|edits|] == edits;
    ValidationIsSound(m, edits, t, i, d, hash, |edits|);
  }

  // ---- Begin and end ----

  function Unpins(t: TransactionId, count: nat): seq<Edit> {
    seq(count, _ => Unpin(t))
  }

  /** `end`: every record's pin is dropped, then the transaction is freed. */
  ghost function EndPlan(m: Memory, t: TransactionId): Plan
    requires t in m.transactions
  {
    Plan(Ok, Unpins(t, |m.transactions[t].dependencies|) + [End(t)])
  }

  /** Ending a transaction drops exactly its own pins: mappings and all other transactions are as before. */
  lemma EndCall(m: Memory, t: TransactionId)
    requires Inv(m) && t in m.transactions && m.transactions[t].inFlight == []
    ensures var m' := Run(m, EndPlan(m, t).edits);
            && Inv(m') && m'.pages == m.pages && m'.transactions == m.transactions - {t}
  {
    hide Inv, Apply, Enabled;
    var n := |m.transactions[t].dependencies|;
    InvOverRun(m, EndPlan(m, t).edits);
    UnpinsRun(m, t, n);
    RunAppend(m, Unpins(t, n), [End(t)]);
    var s := Run(m, Unpins(t, n));
    OneEdit(s, End(t));
    EndStep(m, s, t);
  }

  lemma EndStep(m: Memory, s: Memory, t: TransactionId)
    requires t in m.transactions && s.transactions == m.transactions[t := Transaction([], [])] && s.pages == m.pages
    ensures Apply(s, End(t)).pages == m.pages && Apply(s, End(t)).transactions == m.transactions - {t}
  {
  }

  lemma {:induction false} UnpinsRun(m: Memory, t: TransactionId, k: nat)
    requires t in m.transactions && k <= |m.transactions[t].dependencies|
    ensures var ds := m.transactions[t].dependencies;
            var s := Run(m, Unpins(t, k));
            && s.pages == m.pages
            && s.transactions == m.transactions[t := Transaction(ds[..|ds| - k], m.transactions[t].inFlight)]
    decreases k
  {
    var ds := m.transactions[t].dependencies;
    if k == 0 {
      assert ds[..|ds|] == ds;
      NoEdits(m);
    } else {
      UnpinsRun(m, t, k - 1);
      var s := Run(m, Unpins(t, k - 1));
      assert Unpins(t, k) == Unpins(t, k - 1) + [Unpin(t)];
      RunSnoc(m, Unpins(t, k - 1), Unpin(t));
      UnpinStep(s, t);
      var last := |ds| - (k - 1);
      assert ds[..last][..last - 1] == ds[..|ds| - k];
    }
  }

  lemma UnpinStep(s: Memory, t: TransactionId)
    requires t in s.transactions && s.transactions[t].dependencies != []
    ensures var ds := s.transactions[t].dependencies;
            var s' := Apply(s, Unpin(t));
            && s'.pages == s.pages
            && s'.transactions == s.transactions[t := Transaction(ds[..|ds| - 1], s.transactions[t].inFlight)]
  {
    assert Apply(s, Unpin(t)) == UnpinLast(s, t);
  }
}

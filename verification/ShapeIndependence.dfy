/**
 No function of the memory object decides anything by looking at owned bytes: error, edits and
 locks of a call are the same in two states that differ only there.
 */
module ShapeIndependence {
  import opened Options
  import opened GuestMemory
  import opened MemoryInvariants
  import opened OptimisticValidation
  import opened MappingCalls
  import opened PagedAccess
  import opened TransactionCalls
  import opened CommitPages
  import opened PendingCopies

  lemma SameHolders(m: Memory, m': Memory, b: BackingId)
    requires SameShape(m, m')
    ensures Holders(m', b) == Holders(m, b)
  {
    forall h ensures h in Holders(m', b) <==> h in Holders(m, b) {
      assert Held(m', h) == Held(m, h);
    }
  }

  lemma ShapeKeepsInv(m: Memory, m': Memory)
    requires SameShape(m, m') && Inv(m)
    ensures Inv(m')
  {
    forall b: BackingId ensures Refs(m', b) == |Holders(m', b)| && (b in m'.backings <==> Refs(m', b) > 0) {
      SameHolders(m, m', b);
      assert Refs(m, b) == |Holders(m, b)|;
    }
  }

  lemma ShapeBacked(m: Memory, m': Memory)
    requires SameShape(m, m')
    ensures forall p: nat :: Backed(m', p) <==> Backed(m, p)
    ensures forall p: nat :: Loadable(m', p) <==> Loadable(m, p)
    ensures forall p: nat :: Copies(m', p) <==> Copies(m, p)
  {
  }

  lemma {:induction false} ShapeCheckPages(m: Memory, m': Memory, first: nat, count: nat, committed: bool)
    requires SameShape(m, m')
    ensures CheckPages(m', first, count, committed) == CheckPages(m, first, count, committed)
    decreases count
  {
    if count > 0 {
      ShapeCheckPages(m, m', first + 1, count - 1, committed);
    }
  }

  lemma {:induction false} ShapeFirstGap(m: Memory, m': Memory, b: nat, n: nat)
    requires SameShape(m, m') && n + PAGE_SIZE <= UINT64_MAX
    ensures FirstGap(m', b, n) == FirstGap(m, b, n)
    decreases UINT64_MAX - b
  {
    if b in m.pages && b * PAGE_SIZE <= UINT64_MAX - n - PAGE_SIZE {
      ShapeFirstGap(m, m', b + 1, n);
    }
  }

  lemma ShapeReserve(m: Memory, m': Memory, a: nat, n: nat, granted: nat)
    requires SameShape(m, m')
    ensures ReservePlan(m', a, n, granted) == ReservePlan(m, a, n, granted)
  {
    if n / PAGE_SIZE <= MAX_PAGES {
      ShapeFirstGap(m, m', ANYWHERE_BASE / PAGE_SIZE, n);
    }
  }

  lemma {:induction false} ShapeCommitHostCheck(m: Memory, m': Memory, first: nat, host: nat, count: nat, granted: nat)
    requires SameShape(m, m')
    requires forall p :: InRange(p, first, count) ==> p in m.pages
    ensures CommitHostCheck(m', first, host, count, granted) == CommitHostCheck(m, first, host, count, granted)
    decreases count
  {
    if count > 0 {
      assert InRange(first, first, count);
      assert forall p :: InRange(p, first + 1, count - 1) ==> InRange(p, first, count);
      ShapeCommitHostCheck(m, m', first + 1, host + 1, count - 1, granted);
      if granted > 0 {
        ShapeCommitHostCheck(m, m', first + 1, host + 1, count - 1, granted - 1);
      }
    }
  }

  lemma {:induction false} ShapeCheckAccess(m: Memory, m': Memory, first: nat, count: nat, write: bool, execute: bool)
    requires SameShape(m, m')
    ensures CheckAccess(m', first, count, write, execute) == CheckAccess(m, first, count, write, execute)
    decreases count
  {
    if count > 0 {
      ShapeCheckAccess(m, m', first + 1, count - 1, write, execute);
    }
  }

  lemma {:induction false} ShapeFirstGuard(m: Memory, m': Memory, first: nat, count: nat)
    requires SameShape(m, m')
    ensures FirstGuard(m', first, count) == FirstGuard(m, first, count)
    decreases count
  {
    if count > 0 {
      ShapeFirstGuard(m, m', first + 1, count - 1);
    }
  }

  lemma {:induction false} ShapePromoteEdits(
    m: Memory, m': Memory, first: nat, cells: seq<Fresh>, write: bool, k: nat)
    requires SameShape(m, m') && k <= |cells|
    ensures PromoteEdits(m', first, cells, write, k) == PromoteEdits(m, first, cells, write, k)
    decreases k
  {
    if k > 0 {
      ShapePromoteEdits(m, m', first, cells, write, k - 1);
    }
  }

  lemma ShapeAccess(
    m: Memory, m': Memory, a: nat, n: nat, kind: AccessKind, consumeGuard: bool, scratch: bool, cells: Option<seq<Fresh>>)
    requires SameShape(m, m')
    requires kind.Write? ==> |kind.data| == n
    requires cells.Some? ==> |cells.value| == Span(a, n)
    ensures AccessPlan(m', a, n, kind, consumeGuard, scratch, cells) == AccessPlan(m, a, n, kind, consumeGuard, scratch, cells)
  {
    hide SameShape, CheckAccess, FirstGuard, PromoteEdits, StoreEdits, Span;
    var first, count := a / PAGE_SIZE, Span(a, n);
    ShapeCheckAccess(m, m', first, count, kind.Write?, kind.Fetch? || kind.QueryExecute?);
    ShapeFirstGuard(m, m', first, count);
    ShapePromoteEdits(m, m', first, seq(count, _ => Fresh(0, 0)), false, count);
    if cells.Some? {
      ShapePromoteEdits(m, m', first, cells.value, true, count);
    }
    assert m'.pages == m.pages by {
      ShapePages(m, m');
    }
  }

  lemma ShapePages(m: Memory, m': Memory)
    requires SameShape(m, m')
    ensures m'.pages == m.pages && m'.transactions == m.transactions
  {
  }

  lemma ShapeCurrent(m: Memory, m': Memory, d: Dependency, hash: ContentHash)
    requires SameShape(m, m')
    requires Backed(m, d.page) && BackingOf(m, d.page) == d.backing ==> (d.external <==> !IsInternal(m, d.backing))
    ensures Current(m', d, hash) <==> Current(m, d, hash)
  {
  }

  /** A record after an edit: an old one with its backing unchanged, or a fresh observation. */
  lemma RecordAfter(m: Memory, e: Edit, t: TransactionId, i: nat)
    requires Enabled(m, e) && TransactionEdit(e) && HasDependency(Do(m, e), t, i)
    ensures var d := Do(m, e).transactions[t].dependencies[i];
            || (HasDependency(m, t, i) && d.backing == m.transactions[t].dependencies[i].backing
                && d.external == m.transactions[t].dependencies[i].external)
            || (d.backing in m.backings && RecordKnows(m, d))
  {
  }

  lemma RecordsUntouched(m: Memory, e: Edit)
    requires Enabled(m, e) && !TransactionEdit(e)
    ensures Do(m, e).transactions == m.transactions
  {
    if e.Publish? {
      hide PublishPage;
      PublishTransactions(m, e.page, e.copy, e.content);
    }
  }

  lemma RecordsKnowKept(m: Memory, e: Edit)
    requires Inv(m) && RecordsKnow(m)
    ensures RecordsKnow(Apply(m, e))
  {
    hide Inv, Do, Enabled;
    var m' := Apply(m, e);
    InvPreserved(m, e);
    KindKept(m, e);
    forall t: TransactionId, i: nat | HasDependency(m', t, i)
      ensures RecordKnows(m', m'.transactions[t].dependencies[i])
    {
      if Enabled(m, e) && TransactionEdit(e) {
        RecordAfter(m, e, t, i);
      } else if Enabled(m, e) {
        RecordsUntouched(m, e);
      }
      DependencyAlive(m', t, i);
      if HasDependency(m, t, i) {
        DependencyAlive(m, t, i);
      }
    }
  }

  lemma {:induction false} RecordsKnowOverRun(m: Memory, edits: seq<Edit>)
    requires Inv(m) && RecordsKnow(m)
    ensures RecordsKnow(Run(m, edits))
    decreases |edits|
  {
    hide Inv, RecordsKnow, Apply;
    if edits != [] {
      InvPreserved(m, edits[0]);
      RecordsKnowKept(m, edits[0]);
      RecordsKnowOverRun(Apply(m, edits[0]), edits[1..]);
    }
  }

  lemma ShapeKeepsRecords(m: Memory, m': Memory)
    requires SameShape(m, m') && RecordsKnow(m)
    ensures RecordsKnow(m')
  {
    forall t: TransactionId, i: nat | HasDependency(m', t, i)
      ensures RecordKnows(m', m'.transactions[t].dependencies[i])
    {
      assert HasDependency(m, t, i);
      assert RecordKnows(m, m.transactions[t].dependencies[i]);
    }
  }

  lemma {:induction false} ShapeFirstStale(m: Memory, m': Memory, ds: seq<Dependency>, hash: ContentHash)
    requires SameShape(m, m') && forall i :: 0 <= i < |ds| ==> RecordKnows(m, ds[i])
    ensures FirstStale(m', ds, hash) == FirstStale(m, ds, hash)
    decreases |ds|
  {
    if ds != [] {
      assert RecordKnows(m, ds[0]);
      ShapeCurrent(m, m', ds[0], hash);
      forall i | 0 <= i < |ds[1..]| ensures RecordKnows(m, ds[1..][i]) {
        assert RecordKnows(m, ds[i + 1]);
      }
      ShapeFirstStale(m, m', ds[1..], hash);
    }
  }

  lemma KnownRecords(m: Memory, t: TransactionId)
    requires RecordsKnow(m) && t in m.transactions
    ensures forall i :: 0 <= i < |m.transactions[t].dependencies| ==> RecordKnows(m, m.transactions[t].dependencies[i])
  {
    forall i | 0 <= i < |m.transactions[t].dependencies| ensures RecordKnows(m, m.transactions[t].dependencies[i]) {
      assert HasDependency(m, t, i);
    }
  }

  lemma ShapeRecordedHash(m: Memory, m': Memory, p: nat, hash: ContentHash)
    requires SameShape(m, m') && Loadable(m, p)
    ensures Loadable(m', p) && RecordedHash(m', p, hash) == RecordedHash(m, p, hash)
  {
  }

  lemma ShapeSnapshot(m: Memory, m': Memory, t: TransactionId, address: nat, hash: ContentHash)
    requires SameShape(m, m') && Inv(m) && Inv(m') && RecordsKnow(m) && t in m.transactions
    ensures SnapshotPlan(m', t, address, hash) == SnapshotPlan(m, t, address, hash)
  {
    hide Counted, Stamped, Current, RecordedHash;
    var p := address / PAGE_SIZE;
    var ds := m.transactions[t].dependencies;
    KnownRecords(m, t);
    if Backed(m, p) {
      ShapeRecordedHash(m, m', p, hash);
      var i := FindDependency(ds, p);
      if i.Some? {
        assert RecordKnows(m, ds[i.value]);
        ShapeCurrent(m, m', ds[i.value], hash);
      }
    }
  }

  lemma ShapeObserve(m: Memory, m': Memory, p: nat, contentHash: nat)
    requires SameShape(m, m') && Backed(m, p)
    ensures Backed(m', p) && Observe(m', p, contentHash) == Observe(m, p, contentHash)
  {
  }

  lemma ShapeValidatePage(
    m: Memory, m': Memory, t: TransactionId, p: nat, write: bool, execute: bool, hash: ContentHash)
    requires SameShape(m, m') && Inv(m) && Inv(m') && t in m.transactions
    ensures ValidatePage(m', t, p, write, execute, hash) == ValidatePage(m, t, p, write, execute, hash)
  {
    hide Counted, Stamped, RecordedHash, Observe, Allowed;
    if Backed(m, p) {
      ShapeRecordedHash(m, m', p, hash);
      ShapeObserve(m, m', p, RecordedHash(m, p, hash));
    }
  }

  lemma {:induction false} ShapeCheckWrites(m: Memory, m': Memory, writes: seq<PageWrite>, i: nat)
    requires SameShape(m, m') && i <= |writes|
    ensures CheckWrites(m', writes, i) == CheckWrites(m, writes, i)
    decreases |writes| - i
  {
    if i < |writes| {
      assert WriteError(m', writes, i) == WriteError(m, writes, i);
      ShapeCheckWrites(m, m', writes, i + 1);
    }
  }

  lemma {:induction false} ShapeFirstObstacle(m: Memory, m': Memory, writes: seq<PageWrite>, granted: seq<bool>, i: nat)
    requires SameShape(m, m') && i <= |writes| == |granted|
    ensures FirstObstacle(m', writes, granted, i) == FirstObstacle(m, writes, granted, i)
    decreases |writes| - i
  {
    if i < |writes| {
      ShapeBacked(m, m');
      ShapeFirstObstacle(m, m', writes, granted, i + 1);
    }
  }

  lemma ShapeOneWrite(m: Memory, m': Memory, t: TransactionId, p: nat, cell: Fresh, bytes: PageBytes, hash: ContentHash)
    requires SameShape(m, m') && t in m.transactions && Backed(m, p)
    ensures Backed(m', p) && PublishEdit(m', p, cell, bytes) == PublishEdit(m, p, cell, bytes)
    ensures RecordEdit(m', t, p, bytes, hash) == RecordEdit(m, t, p, bytes, hash)
  {
  }

  lemma {:induction false} ShapeWriteEdits(
    m: Memory, m': Memory, t: TransactionId, writes: seq<PageWrite>, cells: seq<Fresh>, hash: ContentHash, k: nat)
    requires SameShape(m, m') && t in m.transactions && GoodWrites(m, writes) && GoodWrites(m', writes)
    requires k <= |writes| == |cells|
    ensures WriteEdits(m', t, writes, cells, hash, k) == WriteEdits(m, t, writes, cells, hash, k)
    decreases k
  {
    hide SameShape, PublishEdit, RecordEdit;
    ShapePages(m, m');
    if k > 0 {
      ShapeOneWrite(m, m', t, WritePage(writes[k - 1]), cells[k - 1], writes[k - 1].data.value, hash);
      ShapeWriteEdits(m, m', t, writes, cells, hash, k - 1);
    }
  }

  lemma ShapePublish(
    m: Memory, m': Memory, t: TransactionId, writes: seq<PageWrite>, granted: seq<bool>, cells: seq<Fresh>, hash: ContentHash)
    requires SameShape(m, m') && Inv(m) && Inv(m') && RecordsKnow(m) && t in m.transactions
    requires |granted| == |cells| == |writes|
    ensures PublishPlan(m', t, writes, granted, cells, hash) == PublishPlan(m, t, writes, granted, cells, hash)
  {
    hide SameShape, Inv, CheckWrites, FirstObstacle, FirstStale, GoodWrites;
    ShapePages(m, m');
    KnownRecords(m, t);
    ShapeFirstStale(m, m', m.transactions[t].dependencies, hash);
    ShapeCheckWrites(m, m', writes, 0);
    ShapeFirstObstacle(m, m', writes, granted, 0);
    if CheckWrites(m, writes, 0) == Ok {
      CheckedWritesAreGood(m, writes);
      CheckedWritesAreGood(m', writes);
      ShapeWriteEdits(m, m', t, writes, cells, hash, |writes|);
    }
  }
}

/**
 Why a transaction may trust what it recorded.

 A transaction records pages under pins and later asks whether each record is still current.  The
 theorems here are about every run of edits, hence about every interleaving of the memory functions.
 */
module OptimisticValidation {
  import opened Options
  import opened GuestMemory
  import opened MemoryInvariants

  /** The hash of a page's content, used only for caller-owned pages. */
  type ContentHash = PageBytes -> nat

  /** The check made by `finish` and by `commit_pages` on one recorded page. */
  predicate Current(m: Memory, d: Dependency, hash: ContentHash) {
    && Backed(m, d.page)
    && BackingOf(m, d.page) == d.backing
    && m.pages[d.page].generation == d.generation
    && m.backings[d.backing].generation == d.contentGeneration
    && m.pages[d.page].protection == d.protection
    && (d.external ==> ReadableBacking(m, d.backing) && hash(Contents(m, d.backing)) == d.contentHash)
  }

  predicate Recorded(m: Memory, t: TransactionId, i: nat, d: Dependency) {
    HasDependency(m, t, i) && m.transactions[t].dependencies[i] == d
  }

  ghost predicate RecordKnows(m: Memory, d: Dependency) {
    d.external <==> !IsInternal(m, d.backing)
  }

  /** Each record says whether its backing is caller-owned, as it still is while the pin lasts. */
  ghost predicate RecordsKnow(m: Memory) {
    forall t: TransactionId, i: nat :: HasDependency(m, t, i) ==> RecordKnows(m, m.transactions[t].dependencies[i])
  }

  /** The recorded page exactly as it was in an earlier state. */
  ghost predicate Unmoved(m: Memory, m': Memory, d: Dependency) {
    && PageKept(m, m', d.page)
    && BackingKept(m, m', d.backing)
  }

  /** Some stamp of the recorded page has moved past what was recorded, or the page is gone. */
  ghost predicate Diverged(m: Memory, d: Dependency) {
    || d.page !in m.pages
    || m.pages[d.page].generation > d.generation
    || (d.backing in m.backings && m.backings[d.backing].generation > d.contentGeneration)
  }

  lemma PinnedAlive(m: Memory, t: TransactionId, i: nat, d: Dependency)
    requires Inv(m) && Recorded(m, t, i, d)
    ensures d.backing in m.backings
  {
    HolderAlive(m, DependencyRef(t, i));
  }

  /** An edit leaves a current page unmoved or makes it diverge for good. */
  lemma MovesOrDiverges(m: Memory, e: Edit, t: TransactionId, i: nat, d: Dependency)
    requires Inv(m) && Recorded(m, t, i, d) && Recorded(Apply(m, e), t, i, d)
    requires d.page in m.pages && m.pages[d.page].generation == d.generation
    requires d.backing in m.backings && m.backings[d.backing].generation == d.contentGeneration
    ensures Unmoved(m, Apply(m, e), d) || Diverged(Apply(m, e), d)
  {
    EditSound(m, e);
    InvPreserved(m, e);
    PinnedAlive(Apply(m, e), t, i, d);
  }

  lemma DivergenceStays(m: Memory, e: Edit, t: TransactionId, i: nat, d: Dependency)
    requires Inv(m) && Recorded(m, t, i, d) && Recorded(Apply(m, e), t, i, d)
    requires d.generation <= m.generation && d.contentGeneration <= m.generation
    requires Diverged(m, d)
    ensures Diverged(Apply(m, e), d)
  {
    hide Apply, Counted, Stamped, HostsKnown;
    EditSound(m, e);
    InvPreserved(m, e);
    PinnedAlive(m, t, i, d);
    PinnedAlive(Apply(m, e), t, i, d);
  }

  /** Record `i` of transaction `t` is `d` in every state of the run: nobody rewrote it. */
  ghost predicate RecordedThroughout(m: Memory, edits: seq<Edit>, t: TransactionId, i: nat, d: Dependency)
    decreases |edits|
  {
    Recorded(m, t, i, d) && (edits != [] ==> RecordedThroughout(Apply(m, edits[0]), edits[1..], t, i, d))
  }

  lemma {:induction false} DivergenceIsSeen(
    m: Memory, edits: seq<Edit>, t: TransactionId, i: nat, d: Dependency, hash: ContentHash)
    requires Inv(m) && RecordedThroughout(m, edits, t, i, d)
    requires d.generation <= m.generation && d.contentGeneration <= m.generation
    requires Diverged(m, d)
    ensures !Current(Run(m, edits), d, hash)
    decreases |edits|
  {
    if edits != [] {
      var m1 := Apply(m, edits[0]);
      DivergenceStays(m, edits[0], t, i, d);
      InvPreserved(m, edits[0]);
      EditSound(m, edits[0]);
      DivergenceIsSeen(m1, edits[1..], t, i, d, hash);
    }
  }

  /** Stamps of the record, without the checks that only a last look makes. */
  ghost predicate StampsMatch(m: Memory, d: Dependency) {
    && Backed(m, d.page) && BackingOf(m, d.page) == d.backing
    && m.pages[d.page].generation == d.generation
    && m.backings[d.backing].generation == d.contentGeneration
  }

  lemma {:induction false} StillCurrent(
    m: Memory, m1: Memory, edits: seq<Edit>, t: TransactionId, i: nat, d: Dependency, hash: ContentHash, k: nat)
    requires Inv(m1) && RecordedThroughout(m1, edits, t, i, d)
    requires StampsMatch(m, d) && Unmoved(m, m1, d) && Current(Run(m1, edits), d, hash)
    requires k <= |edits|
    ensures Unmoved(m, Run(m1, edits[..k]), d)
    decreases |edits|
  {
    if k == 0 {
      assert edits[..k] == [];
    } else {
      var m2 := Apply(m1, edits[0]);
      InvPreserved(m1, edits[0]);
      EditSound(m1, edits[0]);
      MovesOrDiverges(m1, edits[0], t, i, d);
      if Diverged(m2, d) {
        DivergenceIsSeen(m2, edits[1..], t, i, d, hash);
        assert false;
      }
      StillCurrent(m, m2, edits[1..], t, i, d, hash, k - 1);
      assert edits[..k][0] == edits[0] && edits[..k][1..] == edits[1..][..k - 1];
    }
  }

  /**
   Validation is sound: if a record was current when taken (or last brought up to date) and is
   current at the end of a run, then in every state in between the page was mapped to the same
   backing under the same stamp, and the backing held the same storage with the same bytes.  Pointer
   reuse cannot fool the check: a freed and reallocated backing would have lost its pin.
   */
  lemma ValidationIsSound(
    m: Memory, edits: seq<Edit>, t: TransactionId, i: nat, d: Dependency, hash: ContentHash, k: nat)
    requires Inv(m) && RecordedThroughout(m, edits, t, i, d)
    requires Current(m, d, hash) && Current(Run(m, edits), d, hash)
    requires k <= |edits|
    ensures Unmoved(m, Run(m, edits[..k]), d)
    ensures IsInternal(m, d.backing) ==>
              Contents(Run(m, edits[..k]), d.backing) == Contents(m, d.backing)
              && Run(m, edits[..k]).pages[d.page].protection == d.protection
  {
    StillCurrent(m, m, edits, t, i, d, hash, k);
  }

  // ---- Where stamps do not reach ----

  lemma PublishStampsPage(m: Memory, p: nat, copy: Option<Fresh>, bytes: PageBytes, q: nat)
    requires Stamped(m) && Enabled(m, Publish(p, copy, bytes)) && q in m.pages
    ensures q in PublishPage(m, p, copy, bytes).pages
    ensures PublishPage(m, p, copy, bytes).pages[q] == m.pages[q]
            || PublishPage(m, p, copy, bytes).pages[q].generation > m.pages[q].generation
  {
    hide StoreThrough, Prepared;
    PreparedFrame(m, p, copy);
    PreparedReadable(m, p, copy);
    StoreStamps(Prepared(m, p, copy), p, bytes);
  }

  /** Only one edit changes a mapped page's protection without stamping the page, and it always does. */
  lemma UnstampedProtectionChange(m: Memory, e: Edit, p: nat)
    requires Stamped(m) && Enabled(m, e) && p in m.pages && p in Do(m, e).pages
    ensures (Do(m, e).pages[p].protection != m.pages[p].protection
             && Do(m, e).pages[p].generation == m.pages[p].generation) <==> e == PromoteExternal(p)
  {
    if e.Publish? {
      hide PublishPage;
      PublishStampsPage(m, e.page, e.copy, e.content, p);
    } else if e.Store? {
      hide StoreThrough;
      StoreStamps(m, e.page, Overwrite(Contents(m, BackingOf(m, e.page)), e.offset, e.bytes));
    } else if TransactionEdit(e) {
      TransactionPages(m, e);
    } else {
      OtherProtectionChange(m, e, p);
    }
  }

  lemma TransactionPages(m: Memory, e: Edit)
    requires Enabled(m, e) && TransactionEdit(e)
    ensures Do(m, e).pages == m.pages
  {
  }

  lemma OtherProtectionChange(m: Memory, e: Edit, p: nat)
    requires Stamped(m) && Enabled(m, e) && p in m.pages && p in Do(m, e).pages && !e.Publish? && !e.Store? && !TransactionEdit(e)
    ensures (Do(m, e).pages[p].protection != m.pages[p].protection
             && Do(m, e).pages[p].generation == m.pages[p].generation) <==> e == PromoteExternal(p)
  {
  }

  /**
   The stamp of a new backing is whatever the allocator left in it.  Were it one ahead of the
   counter, a store through one page would go unseen by a record taken through another.
   */
  lemma StampAheadOfCounterHidesStore(m: Memory, d: Dependency, q: nat, bytes: PageBytes, hash: ContentHash)
    requires Current(m, d, hash) && IsInternal(m, d.backing)
    requires q != d.page && Backed(m, q) && BackingOf(m, q) == d.backing
    requires m.backings[d.backing].generation == m.generation + 1
    requires !d.external
    ensures Current(StoreThrough(m, q, bytes), d, hash)
    ensures Contents(StoreThrough(m, q, bytes), d.backing) == bytes
  {
  }
}

/**
 `commit_pages`: a transaction's whole-page writes, published together or not at all.
 */
module CommitPages {
  import opened Options
  import opened GuestMemory
  import opened MemoryInvariants
  import opened OptimisticValidation
  import opened MappingCalls
  import opened MappingEffects
  import opened MappingTheorems
  import opened PagedAccess
  import opened TransactionCalls

  /** One page write: a byte address and, unless the caller passed none, a page of data. */
  datatype PageWrite = PageWrite(address: nat, data: Option<PageBytes>)

  function WritePage(w: PageWrite): nat { w.address / PAGE_SIZE }

  // ---- Checks ----

  /** What is wrong with the i-th write, if anything. */
  function WriteError(m: Memory, writes: seq<PageWrite>, i: nat): Error
    requires i < |writes|
  {
    var w := writes[i];
    if w.data.None? || w.address % PAGE_SIZE != 0 then InvalidArgument
    else if exists j :: 0 <= j < i && writes[j].address == w.address then InvalidArgument
    else AccessError(m, WritePage(w), true, false)
  }

  /** The first error among writes `i ..`. */
  function CheckWrites(m: Memory, writes: seq<PageWrite>, i: nat): (e: Error)
    requires i <= |writes|
    ensures e == Ok <==> forall k :: i <= k < |writes| ==> WriteError(m, writes, k) == Ok
    ensures e in {Ok, InvalidArgument, NotReserved, NotCommitted, AccessDenied}
    decreases |writes| - i
  {
    if i == |writes| then Ok
    else if WriteError(m, writes, i) != Ok then WriteError(m, writes, i)
    else CheckWrites(m, writes, i + 1)
  }

  datatype Obstacle = Clear | Guarded(index: nat) | NoCopy(index: nat)

  /** No armed guard, and a copy to be had if one is needed. */
  ghost predicate Passes(m: Memory, writes: seq<PageWrite>, granted: seq<bool>, k: nat)
    requires k < |writes| == |granted|
  {
    var p := WritePage(writes[k]);
    (p in m.pages ==> !m.pages[p].protection.guard) && (Copies(m, p) ==> granted[k])
  }

  /** The first armed guard or refused copy among writes `i ..`, in the order of the writes. */
  ghost function FirstObstacle(m: Memory, writes: seq<PageWrite>, granted: seq<bool>, i: nat): (o: Obstacle)
    requires i <= |writes| && |granted| == |writes|
    ensures o.Guarded? ==> i <= o.index < |writes| && WritePage(writes[o.index]) in m.pages
                           && m.pages[WritePage(writes[o.index])].protection.guard
    ensures o.NoCopy? ==> i <= o.index < |writes| && Copies(m, WritePage(writes[o.index])) && !granted[o.index]
    ensures forall k :: i <= k < (if o.Clear? then |writes| else o.index) ==> Passes(m, writes, granted, k)
    decreases |writes| - i
  {
    if i == |writes| then Clear
    else
      var p := WritePage(writes[i]);
      if p in m.pages && m.pages[p].protection.guard then Guarded(i)
      else if Copies(m, p) && !granted[i] then NoCopy(i)
      else FirstObstacle(m, writes, granted, i + 1)
  }

  // ---- Edits ----

  function PublishEdit(m: Memory, p: nat, cell: Fresh, bytes: PageBytes): Edit
    requires Backed(m, p)
  {
    Publish(p, if NeedsCopy(m, p) then Some(cell) else None, bytes)
  }

  /** A record of a written page follows it to its new stamps and backing. */
  ghost function RecordEdit(m: Memory, t: TransactionId, p: nat, bytes: PageBytes, hash: ContentHash): seq<Edit>
    requires t in m.transactions && Backed(m, p)
  {
    var i := FindDependency(m.transactions[t].dependencies, p);
    if i.None? then []
    else [Refresh(t, i.value, if m.backings[BackingOf(m, p)].data.External? then hash(bytes) else 0)]
  }

  ghost predicate GoodWrites(m: Memory, writes: seq<PageWrite>) {
    && (forall i :: 0 <= i < |writes| ==> writes[i].data.Some? && Backed(m, WritePage(writes[i])))
    && (forall i, j :: 0 <= i < j < |writes| ==> WritePage(writes[i]) != WritePage(writes[j]))
  }

  /** Publish a page, keep its backing alive and bring the transaction's record of it up to date, for the first `k` writes. */
  ghost function WriteEdits(
    m: Memory, t: TransactionId, writes: seq<PageWrite>, cells: seq<Fresh>, hash: ContentHash, k: nat): seq<Edit>
    requires t in m.transactions && GoodWrites(m, writes) && |cells| == |writes| && k <= |writes|
  {
    if k == 0 then []
    else
      var p, bytes := WritePage(writes[k - 1]), writes[k - 1].data.value;
      WriteEdits(m, t, writes, cells, hash, k - 1)
      + ([PublishEdit(m, p, cells[k - 1], bytes), Hold(t, p)] + RecordEdit(m, t, p, bytes, hash))
  }

  ghost function GuardEdits(m: Memory, t: TransactionId, p: nat): seq<Edit>
    requires t in m.transactions && p in m.pages
  {
    var ds := m.transactions[t].dependencies;
    var i := FindDependency(ds, p);
    [Protect(p, Unguarded(m.pages[p].protection))]
    + if i.None? then [] else [RefreshGuard(t, i.value, ds[i.value].contentHash)]
  }

  function LetGos(t: TransactionId, count: nat): seq<Edit> {
    seq(count, _ => LetGo(t))
  }

  /**
   `commit_pages` up to where it gives up the metadata lock, all bytes included: `granted` says which
   copies the allocator would give.
   */
  ghost function PublishPlan(
    m: Memory, t: TransactionId, writes: seq<PageWrite>, granted: seq<bool>, cells: seq<Fresh>, hash: ContentHash): Plan
    requires Inv(m) && t in m.transactions && |granted| == |cells| == |writes|
  {
    if |writes| > MAX_WRITES then Plan(InvalidArgument, [])
    else if FirstStale(m, m.transactions[t].dependencies, hash).Some? then Plan(Conflict, [])
    else
      var e := CheckWrites(m, writes, 0);
      if e != Ok then Plan(e, [])
      else
        match FirstObstacle(m, writes, granted, 0)
        case Guarded(i) => Plan(GuardPage, GuardEdits(m, t, WritePage(writes[i])))
        case NoCopy(_) => Plan(NoMemory, [])
        case Clear =>
          CheckedWritesAreGood(m, writes);
          Plan(Ok, WriteEdits(m, t, writes, cells, hash, |writes|))
  }

  /** `commit_pages` as one step: published, then the backings it kept alive let go. */
  ghost function CommitPagesPlan(
    m: Memory, t: TransactionId, writes: seq<PageWrite>, granted: seq<bool>, cells: seq<Fresh>, hash: ContentHash): Plan
    requires Inv(m) && t in m.transactions && |granted| == |cells| == |writes|
  {
    var publish := PublishPlan(m, t, writes, granted, cells, hash);
    if publish.error == Ok then Plan(Ok, publish.edits + LetGos(t, |writes|)) else publish
  }

  lemma CheckedWritesAreGood(m: Memory, writes: seq<PageWrite>)
    requires Inv(m) && CheckWrites(m, writes, 0) == Ok
    ensures GoodWrites(m, writes)
  {
    forall i | 0 <= i < |writes| ensures writes[i].data.Some? && Backed(m, WritePage(writes[i])) {
      assert WriteError(m, writes, i) == Ok;
      MappedIsBacked(m, WritePage(writes[i]));
    }
    forall i, j | 0 <= i < j < |writes| ensures WritePage(writes[i]) != WritePage(writes[j]) {
      assert WriteError(m, writes, i) == Ok && WriteError(m, writes, j) == Ok;
    }
  }

  // ---- What one publication does ----

  /** Every page that had content still has it, and nothing else happened to content. */
  ghost predicate SameContent(m: Memory, m': Memory) {
    && SameSharing(m, m')
    && (forall q: nat :: Loadable(m, q) ==> LoadPage(m', q) == LoadPage(m, q))
  }

  lemma TouchedContent(m: Memory, p: nat)
    requires p in m.pages
    ensures SameContent(m, TouchPage(m, p))
  {
    var m' := TouchPage(m, p);
    assert forall q: nat :: q in m.pages ==> m'.pages[q].backing == m.pages[q].backing;
    assert forall q: nat :: Loadable(m, q) <==> Loadable(m', q);
  }

  lemma PromotedContent(m: Memory, p: nat, protection: Protection)
    requires p in m.pages
    ensures SameContent(m, WithProtection(m, p, protection))
  {
    var m' := WithProtection(m, p, protection);
    assert forall q: nat :: q in m.pages ==> m'.pages[q].backing == m.pages[q].backing;
    assert forall q: nat :: Loadable(m, q) <==> Loadable(m', q);
  }

  /** Content after a copy: the same bytes everywhere, and the copied page shares with no other. */
  ghost predicate CopiedOut(m: Memory, m': Memory, p: nat) {
    && m'.pages.Keys == m.pages.Keys
    && (forall q: nat :: Loadable(m, q) ==> Loadable(m', q) && LoadPage(m', q) == LoadPage(m, q))
    && (forall q: nat, r: nat :: Loadable(m, q) && Loadable(m, r) ==>
          (Shares(m', q, r) <==> q == r || (Shares(m, q, r) && q != p && r != p)))
  }

  lemma DetachContent(m: Memory, p: nat, cell: Fresh)
    requires Inv(m) && Enabled(m, Detach(p, cell))
    ensures CopiedOut(m, Apply(m, Detach(p, cell)), p)
  {
    hide Counted, Stamped, Apply;
    var m' := Apply(m, Detach(p, cell));
    DetachFacts(m, p, cell);
    InvPreserved(m, Detach(p, cell));
    forall q: nat | Loadable(m, q) ensures Loadable(m', q) && LoadPage(m', q) == LoadPage(m, q) {
      MappedIsBacked(m', q);
    }
  }

  lemma PreparedContent(m: Memory, p: nat, copy: Option<Fresh>)
    requires Inv(m) && Enabled(m, Publish(p, copy, ZeroPage()))
    ensures copy.Some? ==> CopiedOut(m, Prepared(m, p, copy), p)
    ensures copy.None? ==> SameContent(m, Prepared(m, p, copy))
  {
    if copy.Some? {
      DetachContent(m, p, copy.value);
      assert Apply(m, Detach(p, copy.value)) == TouchPage(Detached(m, p, copy.value), p);
      TouchedContent(Detached(m, p, copy.value), p);
      CopiedUntouched(m, Detached(m, p, copy.value), Apply(m, Detach(p, copy.value)), p);
    } else {
      PromotedContent(m, p, Promoted(m.pages[p].protection));
    }
  }

  lemma CopiedUntouched(m: Memory, m1: Memory, m2: Memory, p: nat)
    requires CopiedOut(m, m2, p) && SameContent(m1, m2)
    ensures CopiedOut(m, m1, p)
  {
    hide Shares;
    assert forall q: nat :: Loadable(m, q) ==> Loadable(m2, q);
  }

  // ---- The state after the first k writes ----

  ghost predicate AmongWrites(writes: seq<PageWrite>, k: nat, p: nat) {
    exists i: nat :: i < k && i < |writes| && WritePage(writes[i]) == p
  }

  /** Pages with one storage once the first `k` writes have had their copies made. */
  ghost predicate OneStorage(m: Memory, writes: seq<PageWrite>, k: nat, q: nat, r: nat) {
    && Loadable(m, q) && Loadable(m, r)
    && (q == r
        || (&& Shares(m, q, r)
            && !(AmongWrites(writes, k, q) && Copies(m, q))
            && !(AmongWrites(writes, k, r) && Copies(m, r))))
  }

  /** The last of the first `n` writes that reaches page `q`. */
  ghost function LastWriter(m: Memory, writes: seq<PageWrite>, k: nat, n: nat, q: nat): (i: Option<nat>)
    requires n <= |writes|
    ensures i.Some? ==> i.value < n && OneStorage(m, writes, k, WritePage(writes[i.value]), q)
    ensures forall j: nat :: (if i.Some? then i.value + 1 else 0) <= j < n ==>
              !OneStorage(m, writes, k, WritePage(writes[j]), q)
    decreases n
  {
    if n == 0 then None
    else if OneStorage(m, writes, k, WritePage(writes[n - 1]), q) then Some(n - 1)
    else LastWriter(m, writes, k, n - 1, q)
  }

  /** What a page shows after the first `k` writes: the data of the last one that reaches it. */
  ghost function ContentAfter(m: Memory, writes: seq<PageWrite>, k: nat, q: nat): PageBytes
    requires k <= |writes| && GoodWrites(m, writes) && Loadable(m, q)
  {
    var i := LastWriter(m, writes, k, k, q);
    if i.None? then LoadPage(m, q) else writes[i.value].data.value
  }

  ghost predicate Committed(m: Memory, s: Memory, writes: seq<PageWrite>, k: nat)
    requires k <= |writes| && GoodWrites(m, writes)
  {
    && s.pages.Keys == m.pages.Keys
    && (forall q: nat :: Loadable(m, q) ==> Loadable(s, q) && LoadPage(s, q) == ContentAfter(m, writes, k, q))
    && (forall q: nat, r: nat :: Loadable(m, q) && Loadable(m, r) ==> (Shares(s, q, r) <==> OneStorage(m, writes, k, q, r)))
  }

  /** What the writes still to come find as it was. */
  ghost predicate Awaiting(m: Memory, s: Memory, t: TransactionId, writes: seq<PageWrite>, cells: seq<Fresh>, k: nat) {
    && t in s.transactions && t in m.transactions && m.generation <= s.generation
    && |s.transactions[t].dependencies| == |m.transactions[t].dependencies|
    && (forall i :: 0 <= i < |m.transactions[t].dependencies| ==>
          s.transactions[t].dependencies[i].page == m.transactions[t].dependencies[i].page)
    && (forall q: nat :: Backed(m, q) && !AmongWrites(writes, k, q) ==>
          && Backed(s, q) && s.pages[q] == m.pages[q]
          && s.backings[BackingOf(s, q)].data.External? == m.backings[BackingOf(m, q)].data.External?)
    && (forall j :: k <= j < |cells| ==> cells[j].id !in s.backings)
  }

  lemma AmongGrows(writes: seq<PageWrite>, k: nat)
    requires k < |writes|
    ensures forall p: nat :: AmongWrites(writes, k + 1, p) <==> AmongWrites(writes, k, p) || p == WritePage(writes[k])
  {
    hide WritePage;
    forall p: nat ensures AmongWrites(writes, k + 1, p) <==> AmongWrites(writes, k, p) || p == WritePage(writes[k]) {
      if AmongWrites(writes, k + 1, p) {
        var i: nat :| i < k + 1 && i < |writes| && WritePage(writes[i]) == p;
        assert i < k || i == k;
      }
    }
  }

  lemma NotYetAmong(m: Memory, writes: seq<PageWrite>, k: nat)
    requires GoodWrites(m, writes) && k < |writes|
    ensures !AmongWrites(writes, k, WritePage(writes[k]))
  {
  }

  lemma {:induction false} SameLastWriter(m: Memory, writes: seq<PageWrite>, k: nat, n: nat, q: nat)
    requires GoodWrites(m, writes) && n <= k < |writes| && q != WritePage(writes[k])
    ensures LastWriter(m, writes, k + 1, n, q) == LastWriter(m, writes, k, n, q)
    decreases n
  {
    if n > 0 {
      AmongGrows(writes, k);
      SameLastWriter(m, writes, k, n - 1, q);
    }
  }

  /** How one more write changes what each page shows. */
  lemma ContentGrows(m: Memory, writes: seq<PageWrite>, k: nat, q: nat)
    requires GoodWrites(m, writes) && k < |writes| && Loadable(m, q) && Loadable(m, WritePage(writes[k]))
    ensures ContentAfter(m, writes, k + 1, q)
         == if OneStorage(m, writes, k + 1, WritePage(writes[k]), q) then writes[k].data.value
            else ContentAfter(m, writes, k, q)
  {
    if q != WritePage(writes[k]) {
      SameLastWriter(m, writes, k, k, q);
    }
  }

  /** Publishing a page: content, then who shares with whom. */
  lemma PublishFacts(s: Memory, p: nat, copy: Option<Fresh>, bytes: PageBytes)
    requires Inv(s) && Enabled(s, Publish(p, copy, bytes))
    ensures var s' := Apply(s, Publish(p, copy, bytes));
            && s'.pages.Keys == s.pages.Keys
            && (forall q: nat, r: nat :: Loadable(s, q) && Loadable(s, r) ==>
                  (Shares(s', q, r) <==> q == r || (Shares(s, q, r) && (copy.Some? ==> q != p && r != p))))
            && (forall q: nat :: Loadable(s, q) ==>
                  && Loadable(s', q)
                  && LoadPage(s', q) == if Shares(s', p, q) then bytes else LoadPage(s, q))
  {
    hide Counted, Stamped, StoreThrough, Prepared, LoadPage, Shares;
    SharesSelf(s);
    var s1 := Prepared(s, p, copy);
    PreparedContent(s, p, copy);
    PreparedReadable(s, p, copy);
    assert Apply(s, Publish(p, copy, bytes)) == StoreThrough(s1, p, bytes);
    StoreSharing(s1, p, bytes);
  }

  /** What publication leaves alone. */
  lemma PublishFrame(s: Memory, p: nat, copy: Option<Fresh>, bytes: PageBytes)
    requires Inv(s) && Enabled(s, Publish(p, copy, bytes))
    ensures var s' := Apply(s, Publish(p, copy, bytes));
            && s'.transactions == s.transactions && s.generation <= s'.generation
            && (forall q: nat :: q in s.pages && q != p ==> q in s'.pages && s'.pages[q] == s.pages[q])
            && (forall b :: b in s.backings && b in s'.backings ==>
                  s'.backings[b].data.External? == s.backings[b].data.External?)
            && (forall b :: b in s'.backings ==> b in s.backings || (copy.Some? && b == copy.value.id))
  {
    hide Counted, Stamped;
  }

  lemma SharesSelf(s: Memory)
    ensures forall q: nat :: Loadable(s, q) ==> Shares(s, q, q)
  {
  }

  /** Edits that only move pins. */
  predicate PinMove(e: Edit) { e.Refresh? || e.Hold? || e.LetGo? }

  ghost predicate OnlyPinsMoved(s: Memory, s': Memory) {
    && s'.pages == s.pages && s'.host == s.host && s'.generation == s.generation
    && s'.transactions.Keys == s.transactions.Keys
    && (forall b :: b in s.backings && b in s'.backings ==> s'.backings[b].data == s.backings[b].data)
    && (forall b :: b in s'.backings ==> b in s.backings)
  }

  lemma PinMoveFrame(s: Memory, e: Edit)
    requires PinMove(e)
    ensures OnlyPinsMoved(s, Apply(s, e))
  {
  }

  lemma PinMoveRecords(s: Memory, e: Edit, t: TransactionId)
    requires PinMove(e) && t in s.transactions
    ensures var s' := Apply(s, e);
            && t in s'.transactions
            && |s'.transactions[t].dependencies| == |s.transactions[t].dependencies|
            && (forall j :: 0 <= j < |s.transactions[t].dependencies| ==>
                  s'.transactions[t].dependencies[j].page == s.transactions[t].dependencies[j].page)
            && (e.Refresh? ==> s'.transactions[t].inFlight == s.transactions[t].inFlight)
  {
  }

  lemma PinMoveFacts(s: Memory, e: Edit, t: TransactionId)
    requires Inv(s) && PinMove(e)
    ensures var s' := Apply(s, e);
            && Inv(s') && OnlyPinsMoved(s, s')
            && (t in s.transactions ==>
                  && |s'.transactions[t].dependencies| == |s.transactions[t].dependencies|
                  && (forall j :: 0 <= j < |s.transactions[t].dependencies| ==>
                        s'.transactions[t].dependencies[j].page == s.transactions[t].dependencies[j].page)
                  && (e.Refresh? ==> s'.transactions[t].inFlight == s.transactions[t].inFlight))
            && (forall q: nat :: Backed(s, q) <==> Backed(s', q))
            && SameContent(s, s')
  {
    hide Counted, Stamped, HostsKnown, Contents, Apply;
    var s' := Apply(s, e);
    InvPreserved(s, e);
    PinMoveFrame(s, e);
    if t in s.transactions {
      PinMoveRecords(s, e, t);
    }
    forall q: nat | Backed(s, q) ensures Backed(s', q) {
      MappedIsBacked(s', q);
    }
    PinMoveContent(s, s');
  }

  lemma PinMoveContent(s: Memory, s': Memory)
    requires s'.pages == s.pages && s'.host == s.host
    requires forall b :: b in s.backings && b in s'.backings ==> s'.backings[b].data == s.backings[b].data
    requires forall q: nat :: Backed(s, q) <==> Backed(s', q)
    ensures SameContent(s, s')
  {
  }

  lemma PublishKeepsAwaiting(
    m: Memory, s: Memory, t: TransactionId, writes: seq<PageWrite>, cells: seq<Fresh>, k: nat, copy: Option<Fresh>)
    requires Inv(s) && GoodWrites(m, writes) && k < |writes| == |cells|
    requires Awaiting(m, s, t, writes, cells, k) && Allocated(m, cells)
    requires copy.Some? ==> copy.value == cells[k]
    requires Enabled(s, Publish(WritePage(writes[k]), copy, writes[k].data.value))
    ensures Awaiting(m, Apply(s, Publish(WritePage(writes[k]), copy, writes[k].data.value)), t, writes, cells, k + 1)
  {
    hide Counted, Stamped, Apply, Enabled, AmongWrites;
    var p := WritePage(writes[k]);
    var s' := Apply(s, Publish(p, copy, writes[k].data.value));
    PublishFrame(s, p, copy, writes[k].data.value);
    InvPreserved(s, Publish(p, copy, writes[k].data.value));
    AmongGrows(writes, k);
    forall q: nat | Backed(m, q) && !AmongWrites(writes, k + 1, q)
      ensures Backed(s', q) && s'.pages[q] == m.pages[q]
      ensures s'.backings[BackingOf(s', q)].data.External? == m.backings[BackingOf(m, q)].data.External?
    {
      MappedIsBacked(s', q);
    }
  }

  lemma PinMoveKeepsAwaiting(
    m: Memory, s: Memory, t: TransactionId, writes: seq<PageWrite>, cells: seq<Fresh>, k: nat, e: Edit)
    requires Inv(s) && Awaiting(m, s, t, writes, cells, k) && PinMove(e)
    ensures Awaiting(m, Apply(s, e), t, writes, cells, k)
  {
    hide Inv, Apply, AmongWrites, SameContent;
    PinMoveFacts(s, e, t);
  }

  lemma PinMoveKeepsCommitted(m: Memory, s: Memory, writes: seq<PageWrite>, k: nat, e: Edit)
    requires Inv(s) && k <= |writes| && GoodWrites(m, writes) && Committed(m, s, writes, k) && PinMove(e)
    ensures Committed(m, Apply(s, e), writes, k)
  {
    hide Inv, Apply, ContentAfter, OneStorage, Shares, LoadPage, GoodWrites;
    PinMoveFacts(s, e, 0);
  }

  /** The k-th write can be published where the earlier ones have been. */
  lemma PublishEnabled(
    m: Memory, s: Memory, t: TransactionId, writes: seq<PageWrite>, cells: seq<Fresh>, k: nat)
    requires Inv(m) && Inv(s) && GoodWrites(m, writes) && k < |writes| == |cells|
    requires Awaiting(m, s, t, writes, cells, k) && Allocated(m, cells)
    ensures Enabled(s, PublishEdit(m, WritePage(writes[k]), cells[k], writes[k].data.value))
  {
    hide Counted, Stamped, AmongWrites;
    NotYetAmong(m, writes, k);
    assert Backed(s, WritePage(writes[k]));
  }

  lemma PublishKeepsCommitted(
    m: Memory, s: Memory, writes: seq<PageWrite>, k: nat, copy: Option<Fresh>)
    requires Inv(s) && GoodWrites(m, writes) && k < |writes|
    requires Committed(m, s, writes, k) && Loadable(m, WritePage(writes[k]))
    requires copy.Some? <==> Copies(m, WritePage(writes[k]))
    requires Enabled(s, Publish(WritePage(writes[k]), copy, writes[k].data.value))
    ensures Committed(m, Apply(s, Publish(WritePage(writes[k]), copy, writes[k].data.value)), writes, k + 1)
  {
    hide Inv, Apply, ContentAfter, OneStorage, Shares, LoadPage, GoodWrites, Enabled, Copies;
    GoodAt(m, writes, k);
    var p, bytes := WritePage(writes[k]), writes[k].data.value;
    var s' := Apply(s, Publish(p, copy, bytes));
    PublishFacts(s, p, copy, bytes);
    forall q: nat, r: nat | Loadable(m, q) && Loadable(m, r)
      ensures Shares(s', q, r) <==> OneStorage(m, writes, k + 1, q, r)
    {
      StorageStep(m, writes, k, q, r);
    }
    forall q: nat | Loadable(m, q) ensures Loadable(s', q) && LoadPage(s', q) == ContentAfter(m, writes, k + 1, q) {
      ContentGrows(m, writes, k, q);
    }
  }

  lemma StorageStep(m: Memory, writes: seq<PageWrite>, k: nat, q: nat, r: nat)
    requires k < |writes| && Loadable(m, q) && Loadable(m, r) && GoodWrites(m, writes)
    ensures OneStorage(m, writes, k + 1, q, r) <==>
              q == r || (OneStorage(m, writes, k, q, r)
                         && (Copies(m, WritePage(writes[k])) ==> q != WritePage(writes[k]) && r != WritePage(writes[k])))
  {
    hide AmongWrites, Copies, Shares;
    AmongGrows(writes, k);
  }

  lemma NothingCommitted(m: Memory, t: TransactionId, writes: seq<PageWrite>, cells: seq<Fresh>)
    requires GoodWrites(m, writes) && t in m.transactions && Allocated(m, cells)
    ensures Committed(m, m, writes, 0) && Awaiting(m, m, t, writes, cells, 0)
  {
  }

  /** A pin move between two states of the commit. */
  lemma PinMoveStep(
    m: Memory, s: Memory, t: TransactionId, writes: seq<PageWrite>, cells: seq<Fresh>, k: nat, e: Edit)
    requires Inv(s) && k <= |writes| && GoodWrites(m, writes) && PinMove(e)
    requires Committed(m, s, writes, k) && Awaiting(m, s, t, writes, cells, k)
    ensures var s' := Apply(s, e);
            Run(s, [e]) == s' && Inv(s') && Committed(m, s', writes, k) && Awaiting(m, s', t, writes, cells, k)
  {
    hide Inv, Run, Apply, Committed, Awaiting;
    OneEdit(s, e);
    InvPreserved(s, e);
    PinMoveKeepsCommitted(m, s, writes, k, e);
    PinMoveKeepsAwaiting(m, s, t, writes, cells, k, e);
  }

  lemma PublishStep(
    m: Memory, s: Memory, t: TransactionId, writes: seq<PageWrite>, cells: seq<Fresh>, k: nat)
    requires Inv(m) && Inv(s) && GoodWrites(m, writes) && k < |writes| == |cells|
    requires Committed(m, s, writes, k) && Awaiting(m, s, t, writes, cells, k) && Allocated(m, cells)
    ensures writes[k].data.Some? && Backed(m, WritePage(writes[k]))
    ensures var s' := Apply(s, PublishEdit(m, WritePage(writes[k]), cells[k], writes[k].data.value));
            && Inv(s') && Committed(m, s', writes, k + 1) && Awaiting(m, s', t, writes, cells, k + 1)
            && Backed(s', WritePage(writes[k])) && s'.transactions == s.transactions
  {
    hide Inv, Apply, Enabled, Committed, Awaiting, Allocated;
    var p, bytes := WritePage(writes[k]), writes[k].data.value;
    var publish := PublishEdit(m, p, cells[k], bytes);
    PublishEnabled(m, s, t, writes, cells, k);
    InvLoadable(m, p);
    PublishKeepsCommitted(m, s, writes, k, publish.copy);
    PublishKeepsAwaiting(m, s, t, writes, cells, k, publish.copy);
    InvPreserved(s, publish);
    PublishFrame(s, p, publish.copy, bytes);
    CommittedLoadable(m, Apply(s, publish), writes, k + 1, p);
  }

  lemma CommittedLoadable(m: Memory, s: Memory, writes: seq<PageWrite>, k: nat, p: nat)
    requires k <= |writes| && GoodWrites(m, writes) && Committed(m, s, writes, k) && Loadable(m, p)
    ensures Loadable(s, p)
  {
  }

  lemma HoldResult(s: Memory, t: TransactionId, p: nat)
    requires t in s.transactions && Backed(s, p)
    ensures Apply(s, Hold(t, p)).transactions[t].inFlight == s.transactions[t].inFlight + [BackingOf(s, p)]
  {
  }

  lemma OneWriteStep(
    m: Memory, s: Memory, t: TransactionId, writes: seq<PageWrite>, cells: seq<Fresh>, hash: ContentHash, k: nat)
    requires Inv(m) && Inv(s) && GoodWrites(m, writes) && k < |writes| == |cells|
    requires t in m.transactions && t in s.transactions
    requires Committed(m, s, writes, k) && Awaiting(m, s, t, writes, cells, k) && Allocated(m, cells)
    ensures writes[k].data.Some? && Backed(m, WritePage(writes[k]))
    ensures var p, bytes := WritePage(writes[k]), writes[k].data.value;
            var s' := Run(s, [PublishEdit(m, p, cells[k], bytes), Hold(t, p)] + RecordEdit(m, t, p, bytes, hash));
            && Inv(s') && Committed(m, s', writes, k + 1) && Awaiting(m, s', t, writes, cells, k + 1)
            && t in s'.transactions && |s'.transactions[t].inFlight| == |s.transactions[t].inFlight| + 1
            && s'.transactions[t].inFlight[..|s.transactions[t].inFlight|] == s.transactions[t].inFlight
  {
    hide Inv, Run, Apply, Enabled, Committed, Awaiting, Allocated, FindDependency;
    PublishStep(m, s, t, writes, cells, k);
    var p, bytes := WritePage(writes[k]), writes[k].data.value;
    var publish, record := PublishEdit(m, p, cells[k], bytes), RecordEdit(m, t, p, bytes, hash);
    var s1 := Apply(s, publish);
    PinMoveStep(m, s1, t, writes, cells, k + 1, Hold(t, p));
    HoldResult(s1, t, p);
    var s2 := Apply(s1, Hold(t, p));
    RunAppend(s, [publish, Hold(t, p)], record);
    TwoEdits(s, publish, Hold(t, p));
    PinMoveFacts(s1, Hold(t, p), t);
    NoEdits(s2);
    if record != [] {
      PinMoveFacts(s2, record[0], t);
      PinMoveStep(m, s2, t, writes, cells, k + 1, record[0]);
      assert record == [record[0]];
    }
  }

  lemma {:induction false} WritesRun(
    m: Memory, t: TransactionId, writes: seq<PageWrite>, cells: seq<Fresh>, hash: ContentHash, k: nat)
    requires Inv(m) && GoodWrites(m, writes) && k <= |writes| == |cells| && t in m.transactions && Allocated(m, cells)
    ensures var s := Run(m, WriteEdits(m, t, writes, cells, hash, k));
            && Inv(s) && Committed(m, s, writes, k) && Awaiting(m, s, t, writes, cells, k)
            && t in s.transactions && |s.transactions[t].inFlight| == |m.transactions[t].inFlight| + k
            && s.transactions[t].inFlight[..|m.transactions[t].inFlight|] == m.transactions[t].inFlight
    decreases k
  {
    hide Inv, Run, Apply, Enabled, Committed, Awaiting, Allocated, GoodWrites, RecordEdit, PublishEdit;
    var held := m.transactions[t].inFlight;
    if k == 0 {
      NoEdits(m);
      NothingCommitted(m, t, writes, cells);
      assert held[..|held|] == held;
    } else {
      WritesRun(m, t, writes, cells, hash, k - 1);
      var s := Run(m, WriteEdits(m, t, writes, cells, hash, k - 1));
      OneWriteStep(m, s, t, writes, cells, hash, k - 1);
      var p, bytes := WritePage(writes[k - 1]), writes[k - 1].data.value;
      var last := [PublishEdit(m, p, cells[k - 1], bytes), Hold(t, p)] + RecordEdit(m, t, p, bytes, hash);
      RunAppend(m, WriteEdits(m, t, writes, cells, hash, k - 1), last);
      var s' := Run(s, last);
      var before, after := s.transactions[t].inFlight, s'.transactions[t].inFlight;
      assert after[..|held|] == after[..|before|][..|held|];
    }
  }

  // ---- Letting go ----

  lemma LetGoResult(s: Memory, t: TransactionId)
    requires t in s.transactions && s.transactions[t].inFlight != []
    ensures Apply(s, LetGo(t)).transactions.Keys == s.transactions.Keys
    ensures Apply(s, LetGo(t)).transactions[t].inFlight == s.transactions[t].inFlight[..|s.transactions[t].inFlight| - 1]
  {
  }

  /** Giving back the pins of a commit changes nothing that a page shows. */
  lemma {:induction false} LetGoRun(
    m: Memory, s: Memory, t: TransactionId, writes: seq<PageWrite>, cells: seq<Fresh>, k: nat)
    requires Inv(s) && GoodWrites(m, writes) && t in s.transactions && k <= |s.transactions[t].inFlight|
    requires Committed(m, s, writes, |writes|) && Awaiting(m, s, t, writes, cells, |writes|)
    ensures var s' := Run(s, LetGos(t, k));
            && Inv(s') && Committed(m, s', writes, |writes|) && Awaiting(m, s', t, writes, cells, |writes|)
            && t in s'.transactions
            && s'.transactions[t].inFlight == s.transactions[t].inFlight[..|s.transactions[t].inFlight| - k]
    decreases k
  {
    hide Inv, Run, Apply, Committed, Awaiting;
    var held := s.transactions[t].inFlight;
    if k == 0 {
      NoEdits(s);
      assert LetGos(t, 0) == [];
      assert held[..|held|] == held;
    } else {
      LetGoRun(m, s, t, writes, cells, k - 1);
      var s1 := Run(s, LetGos(t, k - 1));
      assert LetGos(t, k) == LetGos(t, k - 1) + [LetGo(t)];
      RunSnoc(s, LetGos(t, k - 1), LetGo(t));
      PinMoveStep(m, s1, t, writes, cells, |writes|, LetGo(t));
      LetGoResult(s1, t);
      assert held[..|held| - (k - 1)][..|held| - k] == held[..|held| - k];
    }
  }

  lemma CommitAndLetGo(m: Memory, t: TransactionId, writes: seq<PageWrite>, cells: seq<Fresh>, hash: ContentHash)
    requires Inv(m) && GoodWrites(m, writes) && |writes| == |cells| && t in m.transactions && Allocated(m, cells)
    ensures var m' := Run(m, WriteEdits(m, t, writes, cells, hash, |writes|) + LetGos(t, |writes|));
            && Inv(m') && Committed(m, m', writes, |writes|) && Awaiting(m, m', t, writes, cells, |writes|)
            && t in m'.transactions && m'.transactions[t].inFlight == m.transactions[t].inFlight
  {
    hide Inv, Run, Apply, Committed, Awaiting, WriteEdits, LetGos, Allocated, GoodWrites;
    WritesRun(m, t, writes, cells, hash, |writes|);
    var s := Run(m, WriteEdits(m, t, writes, cells, hash, |writes|));
    LetGoRun(m, s, t, writes, cells, |writes|);
    RunAppend(m, WriteEdits(m, t, writes, cells, hash, |writes|), LetGos(t, |writes|));
  }

  lemma GoodAt(m: Memory, writes: seq<PageWrite>, i: nat)
    requires GoodWrites(m, writes) && i < |writes|
    ensures writes[i].data.Some? && Backed(m, WritePage(writes[i]))
  {
  }

  // ---- What becomes of the records ----

  /** The last of the first `k` writes that reaches a page is the page's own, or none does. */
  ghost predicate OwnWriteLast(m: Memory, writes: seq<PageWrite>, k: nat, q: nat)
    requires k <= |writes|
  {
    var i := LastWriter(m, writes, k, k, q);
    i.None? || WritePage(writes[i.value]) == q
  }

  lemma OwnGrows(m: Memory, writes: seq<PageWrite>, k: nat, q: nat)
    requires GoodWrites(m, writes) && k < |writes| && q != WritePage(writes[k])
    ensures OwnWriteLast(m, writes, k + 1, q) <==>
              OwnWriteLast(m, writes, k, q) && !OneStorage(m, writes, k + 1, WritePage(writes[k]), q)
  {
    SameLastWriter(m, writes, k, k, q);
  }

  lemma OwnNow(m: Memory, writes: seq<PageWrite>, k: nat)
    requires k < |writes| && Loadable(m, WritePage(writes[k]))
    ensures OwnWriteLast(m, writes, k + 1, WritePage(writes[k]))
  {
  }

  /** A record after the first `k` writes: current while no other page's write came over it, else gone stale for good. */
  ghost predicate RecordAt(m: Memory, s: Memory, d: Dependency, writes: seq<PageWrite>, k: nat, hash: ContentHash)
    requires k <= |writes|
  {
    && Loadable(m, d.page) && RecordKnows(s, d)
    && d.generation <= s.generation && d.contentGeneration <= s.generation
    && (OwnWriteLast(m, writes, k, d.page) ==> Current(s, d, hash))
    && (!OwnWriteLast(m, writes, k, d.page) && !d.external ==> Diverged(s, d))
  }

  /** All records of a transaction but those of one page. */
  ghost predicate RecordsAt(
    m: Memory, s: Memory, t: TransactionId, writes: seq<PageWrite>, k: nat, except: Option<nat>, hash: ContentHash)
    requires k <= |writes|
  {
    && t in s.transactions
    && forall i: nat :: i < |s.transactions[t].dependencies| && Some(s.transactions[t].dependencies[i].page) != except ==>
         RecordAt(m, s, s.transactions[t].dependencies[i], writes, k, hash)
  }

  /** Publication stamps the page's storage, and no other. */
  lemma PublishStorage(s: Memory, p: nat, copy: Option<Fresh>, bytes: PageBytes)
    requires Inv(s) && Enabled(s, Publish(p, copy, bytes))
    ensures var s' := Apply(s, Publish(p, copy, bytes));
            && s'.generation > s.generation && Backed(s', p)
            && s'.backings[BackingOf(s', p)].generation > s.generation
            && (forall b :: b in s.backings && b in s'.backings && b != BackingOf(s', p) ==>
                  s'.backings[b].generation == s.backings[b].generation)
  {
    hide StoreThrough, Prepared, Counted, Stamped;
    var s1 := Prepared(s, p, copy);
    PreparedFrame(s, p, copy);
    PreparedReadable(s, p, copy);
    assert Apply(s, Publish(p, copy, bytes)) == StoreThrough(s1, p, bytes);
    StoreStamps(s1, p, bytes);
  }

  /** Another page's record when the storage is apart from the published one. */
  lemma ApartRecord(s: Memory, p: nat, copy: Option<Fresh>, bytes: PageBytes, d: Dependency, hash: ContentHash)
    requires Inv(s) && Enabled(s, Publish(p, copy, bytes)) && d.page != p && Current(s, d, hash)
    requires !Shares(Apply(s, Publish(p, copy, bytes)), p, d.page)
    ensures Current(Apply(s, Publish(p, copy, bytes)), d, hash)
  {
    hide Counted, Stamped, Apply, Enabled, Contents;
    var s' := Apply(s, Publish(p, copy, bytes));
    InvPreserved(s, Publish(p, copy, bytes));
    InvLoadable(s, d.page);
    EnabledBacked(s, p, copy, bytes);
    PublishFacts(s, p, copy, bytes);
    PublishFrame(s, p, copy, bytes);
    PublishStorage(s, p, copy, bytes);
    InvLoadable(s', p);
    assert Loadable(s', d.page) && s'.pages[d.page] == s.pages[d.page];
    assert LoadPage(s', d.page) == LoadPage(s, d.page);
  }

  lemma EnabledBacked(s: Memory, p: nat, copy: Option<Fresh>, bytes: PageBytes)
    requires Enabled(s, Publish(p, copy, bytes))
    ensures Backed(s, p)
  {
  }

  /** Another page's record of owned storage when that storage is the published one. */
  lemma OverwrittenRecord(s: Memory, p: nat, copy: Option<Fresh>, bytes: PageBytes, d: Dependency, hash: ContentHash)
    requires Inv(s) && Enabled(s, Publish(p, copy, bytes)) && d.page != p && Current(s, d, hash)
    requires IsInternal(s, d.backing)
    requires Shares(Apply(s, Publish(p, copy, bytes)), p, d.page)
    ensures Diverged(Apply(s, Publish(p, copy, bytes)), d)
  {
    hide Counted, Apply, Enabled, Contents;
    var s' := Apply(s, Publish(p, copy, bytes));
    PublishFrame(s, p, copy, bytes);
    PublishStorage(s, p, copy, bytes);
    assert s'.pages[d.page] == s.pages[d.page];
  }

  lemma PublishedRecord(
    m: Memory, s: Memory, t: TransactionId, writes: seq<PageWrite>, k: nat, copy: Option<Fresh>, i: nat, hash: ContentHash)
    requires Inv(s) && GoodWrites(m, writes) && k < |writes| && Loadable(m, WritePage(writes[k]))
    requires Enabled(s, Publish(WritePage(writes[k]), copy, writes[k].data.value)) && HasDependency(s, t, i)
    requires var s' := Apply(s, Publish(WritePage(writes[k]), copy, writes[k].data.value));
             Committed(m, s', writes, k + 1) && s'.transactions == s.transactions && s.generation <= s'.generation
    requires s.transactions[t].dependencies[i].page != WritePage(writes[k])
    requires RecordAt(m, s, s.transactions[t].dependencies[i], writes, k, hash)
    ensures RecordAt(m, Apply(s, Publish(WritePage(writes[k]), copy, writes[k].data.value)), s.transactions[t].dependencies[i],
                     writes, k + 1, hash)
  {
    hide Inv, Apply, Enabled, OwnWriteLast, Current, Diverged, OneStorage, Shares, LoadPage, Loadable, ContentAfter;
    var p, bytes, d := WritePage(writes[k]), writes[k].data.value, s.transactions[t].dependencies[i];
    var s' := Apply(s, Publish(p, copy, bytes));
    OwnGrows(m, writes, k, d.page);
    DependencyAlive(s, t, i);
    InvPreserved(s, Publish(p, copy, bytes));
    DependencyAlive(s', t, i);
    PublishFrame(s, p, copy, bytes);
    assert Shares(s', p, d.page) <==> OneStorage(m, writes, k + 1, p, d.page);
    if OwnWriteLast(m, writes, k, d.page) {
      if !Shares(s', p, d.page) {
        ApartRecord(s, p, copy, bytes, d, hash);
      } else if !d.external {
        OverwrittenRecord(s, p, copy, bytes, d, hash);
      }
    } else if !d.external {
      DivergenceStays(s, Publish(p, copy, bytes), t, i, d);
    }
  }

  /** Moving pins changes no record it does not rewrite. */
  lemma CountsKeepRecord(
    m: Memory, s: Memory, s': Memory, d: Dependency, writes: seq<PageWrite>, k: nat, hash: ContentHash)
    requires Inv(s') && OnlyCountsMoved(s, s') && k <= |writes|
    requires d.backing in s.backings && d.backing in s'.backings && RecordAt(m, s, d, writes, k, hash)
    ensures RecordAt(m, s', d, writes, k, hash)
  {
    hide Inv, Current, OwnWriteLast, Loadable;
    CountsKeepCurrent(s, s', d, hash);
  }

  lemma PinMoveOnlyCounts(s: Memory, e: Edit)
    requires e.Hold? || e.LetGo?
    ensures OnlyCountsMoved(s, Apply(s, e)) && Apply(s, e).transactions.Keys == s.transactions.Keys
    ensures forall t :: t in s.transactions ==> Apply(s, e).transactions[t].dependencies == s.transactions[t].dependencies
  {
  }

  lemma PinMoveRecordsAt(
    m: Memory, s: Memory, t: TransactionId, writes: seq<PageWrite>, k: nat, except: Option<nat>, e: Edit, hash: ContentHash)
    requires Inv(s) && k <= |writes| && RecordsAt(m, s, t, writes, k, except, hash) && (e.Hold? || e.LetGo?)
    ensures RecordsAt(m, Apply(s, e), t, writes, k, except, hash)
  {
    hide Inv, Apply, RecordAt, OnlyCountsMoved;
    var s' := Apply(s, e);
    InvPreserved(s, e);
    PinMoveOnlyCounts(s, e);
    var ds := s.transactions[t].dependencies;
    forall i: nat | i < |ds| && Some(ds[i].page) != except ensures RecordAt(m, s', ds[i], writes, k, hash) {
      DependencyAlive(s, t, i);
      DependencyAlive(s', t, i);
      CountsKeepRecord(m, s, s', ds[i], writes, k, hash);
    }
  }

  lemma CurrentIsBounded(m: Memory, s: Memory, d: Dependency, writes: seq<PageWrite>, k: nat, hash: ContentHash)
    requires Inv(s) && k <= |writes| && Current(s, d, hash) && RecordKnows(s, d) && Loadable(m, d.page)
    requires OwnWriteLast(m, writes, k, d.page)
    ensures RecordAt(m, s, d, writes, k, hash)
  {
    hide Counted, Loadable, OwnWriteLast;
  }

  lemma RefreshRecordsAt(
    m: Memory, s: Memory, t: TransactionId, writes: seq<PageWrite>, k: nat, i: nat, p: nat, hash: ContentHash)
    requires Inv(s) && k <= |writes| && HasDependency(s, t, i) && s.transactions[t].dependencies[i].page == p
    requires RecordsAt(m, s, t, writes, k, Some(p), hash)
    requires forall j: nat :: j < |s.transactions[t].dependencies| && j != i ==> s.transactions[t].dependencies[j].page != p
    requires Loadable(s, p) && Loadable(m, p) && OwnWriteLast(m, writes, k, p)
    ensures RecordsAt(m, Apply(s, Refresh(t, i, RecordedHash(s, p, hash))), t, writes, k, None, hash)
  {
    hide Inv, Apply, RecordAt, OnlyCountsMoved, Current, OwnWriteLast, Contents;
    var e := Refresh(t, i, RecordedHash(s, p, hash));
    var s' := Apply(s, e);
    InvPreserved(s, e);
    RefreshIsCurrent(s, t, i, hash);
    var ds, ds' := s.transactions[t].dependencies, s'.transactions[t].dependencies;
    forall j: nat | j < |ds'| ensures RecordAt(m, s', ds'[j], writes, k, hash) {
      if j == i {
        CurrentIsBounded(m, s', ds'[i], writes, k, hash);
      } else {
        DependencyAlive(s, t, j);
        DependencyAlive(s', t, j);
        CountsKeepRecord(m, s, s', ds[j], writes, k, hash);
      }
    }
  }

  lemma PublishRecordsAt(
    m: Memory, s: Memory, t: TransactionId, writes: seq<PageWrite>, cells: seq<Fresh>, k: nat, hash: ContentHash)
    requires Inv(m) && Inv(s) && GoodWrites(m, writes) && k < |writes| == |cells|
    requires Committed(m, s, writes, k) && Awaiting(m, s, t, writes, cells, k) && Allocated(m, cells)
    requires RecordsAt(m, s, t, writes, k, None, hash)
    ensures writes[k].data.Some? && Backed(m, WritePage(writes[k]))
    ensures var s1 := Apply(s, PublishEdit(m, WritePage(writes[k]), cells[k], writes[k].data.value));
            s1.transactions == s.transactions && RecordsAt(m, s1, t, writes, k + 1, Some(WritePage(writes[k])), hash)
  {
    hide Inv, Apply, Enabled, Committed, Awaiting, Allocated, RecordAt, Loadable;
    var p, bytes := WritePage(writes[k]), writes[k].data.value;
    var publish := PublishEdit(m, p, cells[k], bytes);
    PublishStep(m, s, t, writes, cells, k);
    PublishEnabled(m, s, t, writes, cells, k);
    PublishFrame(s, p, publish.copy, bytes);
    InvLoadable(m, p);
    var ds := s.transactions[t].dependencies;
    forall i: nat | i < |ds| && ds[i].page != p ensures RecordAt(m, Apply(s, publish), ds[i], writes, k + 1, hash) {
      PublishedRecord(m, s, t, writes, k, publish.copy, i, hash);
    }
  }

  /** The hash `commit_pages` puts into the record of a page it has just written is that of the page's content. */
  lemma WrittenHash(m: Memory, s: Memory, writes: seq<PageWrite>, k: nat, external: bool, hash: ContentHash)
    requires k < |writes| && GoodWrites(m, writes) && Committed(m, s, writes, k + 1) && Loadable(m, WritePage(writes[k]))
    requires Loadable(s, WritePage(writes[k]))
    requires external == s.backings[BackingOf(s, WritePage(writes[k]))].data.External?
    ensures RecordedHash(s, WritePage(writes[k]), hash) == if external then hash(writes[k].data.value) else 0
  {
    hide Contents;
    var p := WritePage(writes[k]);
    assert OneStorage(m, writes, k + 1, p, p);
  }

  lemma PublishKeepsKind(
    m: Memory, s: Memory, t: TransactionId, writes: seq<PageWrite>, cells: seq<Fresh>, k: nat)
    requires Inv(m) && Inv(s) && GoodWrites(m, writes) && k < |writes| == |cells|
    requires Awaiting(m, s, t, writes, cells, k) && Allocated(m, cells)
    ensures writes[k].data.Some? && Backed(m, WritePage(writes[k]))
    ensures var p := WritePage(writes[k]);
            var s1 := Apply(s, PublishEdit(m, p, cells[k], writes[k].data.value));
            && Backed(s1, p)
            && s1.backings[BackingOf(s1, p)].data.External? == m.backings[BackingOf(m, p)].data.External?
  {
    hide Counted, Stamped, StoreThrough;
    var p, bytes := WritePage(writes[k]), writes[k].data.value;
    var copy := PublishEdit(m, p, cells[k], bytes).copy;
    PublishEnabled(m, s, t, writes, cells, k);
    NotYetAmong(m, writes, k);
    PreparedReadable(s, p, copy);
    assert Apply(s, Publish(p, copy, bytes)) == StoreThrough(Prepared(s, p, copy), p, bytes);
    StoreKeepsKind(Prepared(s, p, copy), p, bytes);
  }

  lemma StoreKeepsKind(s: Memory, p: nat, bytes: PageBytes)
    requires Backed(s, p) && ReadableBacking(s, BackingOf(s, p))
    ensures var s' := StoreThrough(s, p, bytes);
            && Backed(s', p) && BackingOf(s', p) == BackingOf(s, p)
            && s'.backings[BackingOf(s, p)].data.External? == s.backings[BackingOf(s, p)].data.External?
  {
  }

  lemma {:induction false} RecordsRun(
    m: Memory, t: TransactionId, writes: seq<PageWrite>, cells: seq<Fresh>, hash: ContentHash, k: nat)
    requires Inv(m) && GoodWrites(m, writes) && k <= |writes| == |cells| && Orderly(m, t) && Allocated(m, cells)
    requires forall i: nat :: i < |m.transactions[t].dependencies| ==> Current(m, m.transactions[t].dependencies[i], hash)
    ensures RecordsAt(m, Run(m, WriteEdits(m, t, writes, cells, hash, k)), t, writes, k, None, hash)
    decreases k
  {
    hide Inv, Run, Apply, Committed, Awaiting, Allocated, GoodWrites, RecordEdit, PublishEdit, Current, RecordAt, OwnWriteLast,
         Loadable, Orderly;
    OrderlyHas(m, t);
    if k == 0 {
      NoEdits(m);
      FirstRecords(m, t, writes, hash);
    } else {
      GoodAt(m, writes, k - 1);
      RecordsRun(m, t, writes, cells, hash, k - 1);
      WritesRun(m, t, writes, cells, hash, k - 1);
      var s := Run(m, WriteEdits(m, t, writes, cells, hash, k - 1));
      OneWriteRecords(m, s, t, writes, cells, hash, k - 1);
      var p, bytes := WritePage(writes[k - 1]), writes[k - 1].data.value;
      RunAppend(m, WriteEdits(m, t, writes, cells, hash, k - 1),
                [PublishEdit(m, p, cells[k - 1], bytes), Hold(t, p)] + RecordEdit(m, t, p, bytes, hash));
    }
  }

  lemma FirstRecords(m: Memory, t: TransactionId, writes: seq<PageWrite>, hash: ContentHash)
    requires Inv(m) && Orderly(m, t)
    requires forall i: nat :: i < |m.transactions[t].dependencies| ==> Current(m, m.transactions[t].dependencies[i], hash)
    ensures RecordsAt(m, m, t, writes, 0, None, hash)
  {
    hide Inv, Current, RecordAt, OneRecordEach;
    forall i: nat | i < |m.transactions[t].dependencies| ensures RecordAt(m, m, m.transactions[t].dependencies[i], writes, 0, hash) {
      CurrentIsLoadable(m, m.transactions[t].dependencies[i], hash);
      CurrentIsBounded(m, m, m.transactions[t].dependencies[i], writes, 0, hash);
    }
  }

  lemma CurrentIsLoadable(m: Memory, d: Dependency, hash: ContentHash)
    requires Inv(m) && Current(m, d, hash)
    ensures Loadable(m, d.page)
  {
  }

  /** A transaction has one record of a page at most, now as before. */
  lemma OnlyRecord(m: Memory, s: Memory, t: TransactionId, writes: seq<PageWrite>, cells: seq<Fresh>, k: nat, p: nat)
    requires Orderly(m, t) && Awaiting(m, s, t, writes, cells, k)
    ensures var i := FindDependency(m.transactions[t].dependencies, p);
            && (i.Some? ==> HasDependency(s, t, i.value) && s.transactions[t].dependencies[i.value].page == p)
            && forall j: nat :: j < |s.transactions[t].dependencies| && Some(j) != i ==> s.transactions[t].dependencies[j].page != p
  {
  }

  lemma OneWriteRecords(
    m: Memory, s: Memory, t: TransactionId, writes: seq<PageWrite>, cells: seq<Fresh>, hash: ContentHash, k: nat)
    requires Inv(m) && Inv(s) && GoodWrites(m, writes) && k < |writes| == |cells|
    requires Orderly(m, t) && t in m.transactions && t in s.transactions
    requires Committed(m, s, writes, k) && Awaiting(m, s, t, writes, cells, k) && Allocated(m, cells)
    requires RecordsAt(m, s, t, writes, k, None, hash)
    ensures writes[k].data.Some? && Backed(m, WritePage(writes[k]))
    ensures var p, bytes := WritePage(writes[k]), writes[k].data.value;
            RecordsAt(m, Run(s, [PublishEdit(m, p, cells[k], bytes), Hold(t, p)] + RecordEdit(m, t, p, bytes, hash)), t,
                      writes, k + 1, None, hash)
  {
    hide Inv, Run, Apply, Committed, Awaiting, Allocated, FindDependency, Orderly, OwnWriteLast, RecordAt, Contents;
    PublishStep(m, s, t, writes, cells, k);
    PublishRecordsAt(m, s, t, writes, cells, k, hash);
    PublishKeepsKind(m, s, t, writes, cells, k);
    var p, bytes := WritePage(writes[k]), writes[k].data.value;
    var publish, record := PublishEdit(m, p, cells[k], bytes), RecordEdit(m, t, p, bytes, hash);
    var s1 := Apply(s, publish);
    var s2 := Apply(s1, Hold(t, p));
    PinMoveRecordsAt(m, s1, t, writes, k + 1, Some(p), Hold(t, p), hash);
    PinMoveStep(m, s1, t, writes, cells, k + 1, Hold(t, p));
    HeldKind(s1, t, p);
    OnlyRecord(m, s2, t, writes, cells, k + 1, p);
    RunAppend(s, [publish, Hold(t, p)], record);
    TwoEdits(s, publish, Hold(t, p));
    NoEdits(s2);
    InvLoadable(m, p);
    if record != [] {
      InvLoadable(s2, p);
      OwnNow(m, writes, k);
      WrittenHash(m, s2, writes, k, m.backings[BackingOf(m, p)].data.External?, hash);
      RefreshRecordsAt(m, s2, t, writes, k + 1, record[0].index, p, hash);
      OneEdit(s2, record[0]);
      assert record == [record[0]];
    }
  }

  lemma HeldKind(s: Memory, t: TransactionId, p: nat)
    requires t in s.transactions && Backed(s, p)
    ensures var s' := Apply(s, Hold(t, p));
            && Backed(s', p) && s'.backings[BackingOf(s', p)].data == s.backings[BackingOf(s, p)].data
  {
  }

  lemma {:induction false} LetGoRecords(
    m: Memory, s: Memory, t: TransactionId, writes: seq<PageWrite>, k: nat, hash: ContentHash)
    requires Inv(s) && RecordsAt(m, s, t, writes, |writes|, None, hash)
    ensures RecordsAt(m, Run(s, LetGos(t, k)), t, writes, |writes|, None, hash)
    decreases k
  {
    hide Inv, Run, Apply, RecordsAt;
    if k == 0 {
      NoEdits(s);
      assert LetGos(t, 0) == [];
    } else {
      LetGoRecords(m, s, t, writes, k - 1, hash);
      assert LetGos(t, k) == LetGos(t, k - 1) + [LetGo(t)];
      RunSnoc(s, LetGos(t, k - 1), LetGo(t));
      InvOverRun(s, LetGos(t, k - 1));
      PinMoveRecordsAt(m, Run(s, LetGos(t, k - 1)), t, writes, |writes|, None, LetGo(t), hash);
    }
  }

  /**
   The records after a commit.  Each is current unless a later write to another page came over its storage;
   a record of owned storage is current exactly then.
   */
  ghost predicate RecordsSettled(m: Memory, m': Memory, t: TransactionId, writes: seq<PageWrite>, hash: ContentHash) {
    && t in m'.transactions
    && forall i: nat :: i < |m'.transactions[t].dependencies| ==>
         var d := m'.transactions[t].dependencies[i];
         && (OwnWriteLast(m, writes, |writes|, d.page) ==> Current(m', d, hash))
         && (IsInternal(m', d.backing) ==> (Current(m', d, hash) <==> OwnWriteLast(m, writes, |writes|, d.page)))
  }

  lemma SettledRecords(m: Memory, m': Memory, t: TransactionId, writes: seq<PageWrite>, hash: ContentHash)
    requires RecordsAt(m, m', t, writes, |writes|, None, hash)
    ensures RecordsSettled(m, m', t, writes, hash)
  {
    hide OwnWriteLast, Loadable;
    forall i: nat | i < |m'.transactions[t].dependencies|
      ensures var d := m'.transactions[t].dependencies[i];
              && (OwnWriteLast(m, writes, |writes|, d.page) ==> Current(m', d, hash))
              && (IsInternal(m', d.backing) ==> (Current(m', d, hash) <==> OwnWriteLast(m, writes, |writes|, d.page)))
    {
      var d := m'.transactions[t].dependencies[i];
      assert RecordAt(m, m', d, writes, |writes|, hash);
    }
  }

  lemma CommitRecords(
    m: Memory, t: TransactionId, writes: seq<PageWrite>, cells: seq<Fresh>, hash: ContentHash)
    requires Inv(m) && GoodWrites(m, writes) && |writes| == |cells| && Orderly(m, t) && Allocated(m, cells)
    requires forall i: nat :: i < |m.transactions[t].dependencies| ==> Current(m, m.transactions[t].dependencies[i], hash)
    ensures t in m.transactions
    ensures var m' := Run(m, WriteEdits(m, t, writes, cells, hash, |writes|) + LetGos(t, |writes|));
            Orderly(m', t) && RecordsSettled(m, m', t, writes, hash)
  {
    hide Inv, Run, Committed, Awaiting, Allocated, GoodWrites, WriteEdits, LetGos, RecordsAt, RecordsSettled, Current, Orderly;
    OrderlyHas(m, t);
    var edits := WriteEdits(m, t, writes, cells, hash, |writes|);
    RecordsRun(m, t, writes, cells, hash, |writes|);
    InvOverRun(m, edits);
    LetGoRecords(m, Run(m, edits), t, writes, |writes|, hash);
    RunAppend(m, edits, LetGos(t, |writes|));
    SettledRecords(m, Run(m, edits + LetGos(t, |writes|)), t, writes, hash);
    CommitAndLetGo(m, t, writes, cells, hash);
    StillOrderly(m, Run(m, edits + LetGos(t, |writes|)), t, writes, cells, hash);
  }

  lemma StillOrderly(m: Memory, m': Memory, t: TransactionId, writes: seq<PageWrite>, cells: seq<Fresh>, hash: ContentHash)
    requires Orderly(m, t) && Awaiting(m, m', t, writes, cells, |writes|)
    requires RecordsAt(m, m', t, writes, |writes|, None, hash)
    ensures Orderly(m', t)
  {
    hide OwnWriteLast, Loadable, Current, Diverged;
  }

  /** A guard hit leaves records that were all current all current. */
  lemma GuardRecords(m: Memory, t: TransactionId, p: nat, hash: ContentHash)
    requires Inv(m) && Orderly(m, t) && Backed(m, p)
    requires forall i: nat :: i < |m.transactions[t].dependencies| ==> Current(m, m.transactions[t].dependencies[i], hash)
    ensures Orderly(Run(m, GuardEdits(m, t, p)), t) && RecordsFollow(m, Run(m, GuardEdits(m, t, p)), t, hash)
  {
    hide Run, Apply, Inv, Unguarded, GuardCleared, Orderly, RecordsFollow, OneRecordEach;
    OrderlyHas(m, t);
    var ds := m.transactions[t].dependencies;
    var i := FindDependency(ds, p);
    if i.Some? {
      assert GuardEdits(m, t, p) == GuardHit(t, i.value, ds[i.value], ds[i.value].contentHash);
      GuardHitIsCurrent(m, t, i.value, ds[i.value].contentHash, hash);
    } else {
      assert GuardEdits(m, t, p) == [Protect(p, Unguarded(m.pages[p].protection))];
      ClearGuard(m, p);
      UnrecordedGuard(m, t, p, hash);
    }
  }

  lemma UnrecordedGuard(m: Memory, t: TransactionId, p: nat, hash: ContentHash)
    requires Orderly(m, t) && p in m.pages && FindDependency(m.transactions[t].dependencies, p).None?
    ensures Orderly(GuardCleared(m, p), t) && RecordsFollow(m, GuardCleared(m, p), t, hash)
  {
    hide FindDependency;
  }

  // ---- What commit_pages reports ----

  /** What is wrong with a write: no data, a crooked address, a page written twice, or a page that may not be written. */
  ghost function WriteFault(m: Memory, writes: seq<PageWrite>, i: nat): Error
    requires i < |writes|
  {
    var p := writes[i].address / 4096;
    if writes[i].data == None || writes[i].address % 4096 != 0 then InvalidArgument
    else if exists j: nat :: j < i && writes[j].address == writes[i].address then InvalidArgument
    else if p !in m.pages then NotReserved
    else if m.pages[p].backing == None then NotCommitted
    else if m.pages[p].protection.access !in {0x04, 0x08, 0x40, 0x80} then AccessDenied
    else Ok
  }

  /** What stands in the way of a write that is in order: a guard, or a copy that cannot be had. */
  ghost function WriteObstacle(m: Memory, writes: seq<PageWrite>, granted: seq<bool>, i: nat): Error
    requires i < |writes| == |granted|
  {
    var p := writes[i].address / 4096;
    if p !in m.pages then Ok
    else if m.pages[p].protection.guard then GuardPage
    else if m.pages[p].protection.access in {0x08, 0x80} && m.pages[p].backing.Some? && IsInternal(m, m.pages[p].backing.value)
            && !granted[i]
    then NoMemory
    else Ok
  }

  /** The records first, then every write, then what stands in the way; the first to fail decides. */
  ghost predicate CommitOutcome(
    m: Memory, t: TransactionId, writes: seq<PageWrite>, granted: seq<bool>, hash: ContentHash, e: Error)
    requires t in m.transactions && |granted| == |writes|
  {
    if |writes| > 64 then e == InvalidArgument
    else if exists i: nat :: i < |m.transactions[t].dependencies| && !AsRecorded(m, m.transactions[t].dependencies[i], hash)
    then e == Conflict
    else if exists i: nat :: i < |writes| && WriteFault(m, writes, i) != Ok
    then exists i: nat :: i < |writes| && WriteFault(m, writes, i) == e != Ok
                          && forall j: nat :: j < i ==> WriteFault(m, writes, j) == Ok
    else if exists i: nat :: i < |writes| && WriteObstacle(m, writes, granted, i) != Ok
    then exists i: nat :: i < |writes| && WriteObstacle(m, writes, granted, i) == e != Ok
                          && forall j: nat :: j < i ==> WriteObstacle(m, writes, granted, j) == Ok
    else e == Ok
  }

  lemma FaultIsError(m: Memory, writes: seq<PageWrite>, i: nat)
    requires i < |writes|
    ensures WriteFault(m, writes, i) == WriteError(m, writes, i)
  {
    if exists j :: 0 <= j < i && writes[j].address == writes[i].address {
      var j :| 0 <= j < i && writes[j].address == writes[i].address;
      var k: nat := j;
      assert k < i && writes[k].address == writes[i].address;
    }
  }

  lemma {:induction false} CheckFindsFault(m: Memory, writes: seq<PageWrite>, i: nat)
    requires i <= |writes| && CheckWrites(m, writes, i) != Ok
    ensures exists k: nat :: i <= k < |writes| && WriteFault(m, writes, k) == CheckWrites(m, writes, i)
                             && forall j: nat :: i <= j < k ==> WriteFault(m, writes, j) == Ok
    decreases |writes| - i
  {
    hide WriteFault, WriteError;
    FaultIsError(m, writes, i);
    if WriteError(m, writes, i) == Ok {
      CheckFindsFault(m, writes, i + 1);
      var k: nat :| i + 1 <= k < |writes| && WriteFault(m, writes, k) == CheckWrites(m, writes, i + 1)
                    && forall j: nat :: i + 1 <= j < k ==> WriteFault(m, writes, j) == Ok;
    }
  }

  lemma PassesWithoutObstacle(m: Memory, writes: seq<PageWrite>, granted: seq<bool>, i: nat)
    requires Inv(m) && i < |writes| == |granted|
    ensures Passes(m, writes, granted, i) <==> WriteObstacle(m, writes, granted, i) == Ok
    ensures var p := WritePage(writes[i]);
            !Passes(m, writes, granted, i) ==>
              WriteObstacle(m, writes, granted, i) == if p in m.pages && m.pages[p].protection.guard then GuardPage else NoMemory
  {
    hide Stamped, Counted;
  }

  lemma CommitDecides(
    m: Memory, t: TransactionId, writes: seq<PageWrite>, granted: seq<bool>, cells: seq<Fresh>, hash: ContentHash)
    requires Inv(m) && t in m.transactions && |granted| == |cells| == |writes|
    ensures CommitOutcome(m, t, writes, granted, hash, CommitPagesPlan(m, t, writes, granted, cells, hash).error)
  {
    hide Inv, WriteFault, WriteError, WriteObstacle, Passes, AsRecorded, Current, GuardEdits, WriteEdits;
    CurrentAsRecorded(m, hash);
    forall i: nat | i < |writes| ensures WriteFault(m, writes, i) == WriteError(m, writes, i) {
      FaultIsError(m, writes, i);
    }
    if CheckWrites(m, writes, 0) != Ok {
      CheckFindsFault(m, writes, 0);
    }
    forall i: nat | i < |writes| ensures Passes(m, writes, granted, i) <==> WriteObstacle(m, writes, granted, i) == Ok {
      PassesWithoutObstacle(m, writes, granted, i);
    }
    var o := FirstObstacle(m, writes, granted, 0);
    if !o.Clear? {
      PassesWithoutObstacle(m, writes, granted, o.index);
      ObstacleBlocks(m, writes, granted, o);
    }
  }

  lemma ObstacleBlocks(m: Memory, writes: seq<PageWrite>, granted: seq<bool>, o: Obstacle)
    requires |granted| == |writes| && o == FirstObstacle(m, writes, granted, 0) && !o.Clear?
    ensures !Passes(m, writes, granted, o.index)
    ensures var p := WritePage(writes[o.index]); o.Guarded? <==> p in m.pages && m.pages[p].protection.guard
  {
    NoCopyUnguarded(m, writes, granted, 0);
  }

  lemma {:induction false} NoCopyUnguarded(m: Memory, writes: seq<PageWrite>, granted: seq<bool>, i: nat)
    requires i <= |writes| == |granted|
    ensures var o := FirstObstacle(m, writes, granted, i);
            o.NoCopy? ==> WritePage(writes[o.index]) in m.pages && !m.pages[WritePage(writes[o.index])].protection.guard
    decreases |writes| - i
  {
    if i < |writes| {
      NoCopyUnguarded(m, writes, granted, i + 1);
    }
  }

  // ---- What becomes of the page records ----

  /** Written pages are no longer write-copy and stay in their reservations; the other page records are as they were. */
  ghost predicate PagesAfter(m: Memory, s: Memory, writes: seq<PageWrite>, k: nat) {
    && s.pages.Keys == m.pages.Keys
    && forall q: nat :: q in m.pages ==>
         if AmongWrites(writes, k, q)
         then && PageProtected(m, s, q, true, true)
              && s.pages[q].base == m.pages[q].base && s.pages[q].size == m.pages[q].size
         else s.pages[q] == m.pages[q]
  }

  lemma PageGiven(s: Memory, p: nat, copy: Option<Fresh>, bytes: PageBytes)
    requires Enabled(s, Publish(p, copy, bytes))
    ensures var s' := Apply(s, Publish(p, copy, bytes));
            && s'.pages.Keys == s.pages.Keys && PageProtected(s, s', p, true, true)
            && s'.pages[p].base == s.pages[p].base && s'.pages[p].size == s.pages[p].size
            && (forall q: nat :: q in s.pages && q != p ==> s'.pages[q] == s.pages[q])
  {
    hide StoreThrough;
    PreparedReadable(s, p, copy);
    assert Apply(s, Publish(p, copy, bytes)) == StoreThrough(Prepared(s, p, copy), p, bytes);
    StoreStamps(Prepared(s, p, copy), p, bytes);
  }

  lemma PublishPagesAfter(m: Memory, s: Memory, s': Memory, writes: seq<PageWrite>, k: nat)
    requires GoodWrites(m, writes) && k < |writes| && PagesAfter(m, s, writes, k) && s'.pages.Keys == s.pages.Keys
    requires var p := WritePage(writes[k]);
             && PageProtected(s, s', p, true, true) && s'.pages[p].base == s.pages[p].base && s'.pages[p].size == s.pages[p].size
             && (forall q: nat :: q in s.pages && q != p ==> s'.pages[q] == s.pages[q])
    ensures PagesAfter(m, s', writes, k + 1)
  {
    hide AmongWrites;
    AmongGrows(writes, k);
    NotYetAmong(m, writes, k);
  }

  lemma {:induction false} WritesPages(
    m: Memory, t: TransactionId, writes: seq<PageWrite>, cells: seq<Fresh>, hash: ContentHash, k: nat)
    requires Inv(m) && GoodWrites(m, writes) && k <= |writes| == |cells| && t in m.transactions && Allocated(m, cells)
    ensures PagesAfter(m, Run(m, WriteEdits(m, t, writes, cells, hash, k)), writes, k)
    decreases k
  {
    hide Inv, Run, Apply, Enabled, Committed, Awaiting, Allocated, GoodWrites, RecordEdit, PagesAfter, PageProtected;
    if k == 0 {
      NoEdits(m);
      NoPagesYet(m, writes);
    } else {
      WritesPages(m, t, writes, cells, hash, k - 1);
      WritesRun(m, t, writes, cells, hash, k - 1);
      GoodAt(m, writes, k - 1);
      var s := Run(m, WriteEdits(m, t, writes, cells, hash, k - 1));
      var p, bytes := WritePage(writes[k - 1]), writes[k - 1].data.value;
      var publish := PublishEdit(m, p, cells[k - 1], bytes);
      PublishEnabled(m, s, t, writes, cells, k - 1);
      PageGiven(s, p, publish.copy, bytes);
      PublishPagesAfter(m, s, Apply(s, publish), writes, k - 1);
      var record := RecordEdit(m, t, p, bytes, hash);
      RunAppend(m, WriteEdits(m, t, writes, cells, hash, k - 1), [publish, Hold(t, p)] + record);
      RunAppend(s, [publish, Hold(t, p)], record);
      TwoEdits(s, publish, Hold(t, p));
      PinMovesKeepPages(Apply(s, publish), [Hold(t, p)]);
      OneEdit(Apply(s, publish), Hold(t, p));
      RecordMoves(m, t, p, bytes, hash);
      PinMovesKeepPages(Apply(Apply(s, publish), Hold(t, p)), record);
      SamePagesAfter(m, Apply(s, publish), Run(s, [publish, Hold(t, p)] + record), writes, k);
    }
  }

  lemma RecordMoves(m: Memory, t: TransactionId, p: nat, bytes: PageBytes, hash: ContentHash)
    requires t in m.transactions && Backed(m, p)
    ensures forall i :: 0 <= i < |RecordEdit(m, t, p, bytes, hash)| ==> PinMove(RecordEdit(m, t, p, bytes, hash)[i])
  {
  }

  lemma NoPagesYet(m: Memory, writes: seq<PageWrite>)
    ensures PagesAfter(m, m, writes, 0)
  {
  }

  lemma SamePagesAfter(m: Memory, s: Memory, s': Memory, writes: seq<PageWrite>, k: nat)
    requires PagesAfter(m, s, writes, k) && s'.pages == s.pages
    ensures PagesAfter(m, s', writes, k)
  {
  }

  lemma {:induction false} PinMovesKeepPages(s: Memory, edits: seq<Edit>)
    requires forall i :: 0 <= i < |edits| ==> PinMove(edits[i])
    ensures Run(s, edits).pages == s.pages
    decreases |edits|
  {
    hide Apply, PinMove;
    if edits != [] {
      PinMoveFrame(s, edits[0]);
      PinMovesKeepPages(Apply(s, edits[0]), edits[1..]);
    }
  }

  lemma CommitPagesAfter(m: Memory, t: TransactionId, writes: seq<PageWrite>, cells: seq<Fresh>, hash: ContentHash)
    requires Inv(m) && GoodWrites(m, writes) && |writes| == |cells| && t in m.transactions && Allocated(m, cells)
    ensures PagesAfter(m, Run(m, WriteEdits(m, t, writes, cells, hash, |writes|) + LetGos(t, |writes|)), writes, |writes|)
  {
    hide Run, Inv, Allocated, WriteEdits, GoodWrites, PagesAfter;
    var edits := WriteEdits(m, t, writes, cells, hash, |writes|);
    WritesPages(m, t, writes, cells, hash, |writes|);
    RunAppend(m, edits, LetGos(t, |writes|));
    PinMovesKeepPages(Run(m, edits), LetGos(t, |writes|));
    SamePagesAfter(m, Run(m, edits), Run(m, edits + LetGos(t, |writes|)), writes, |writes|);
  }

  // ---- The call ----

  /** Two writes of the call that end up in one storage carry the same page. */
  ghost predicate WritesAgree(m: Memory, writes: seq<PageWrite>)
    requires GoodWrites(m, writes)
  {
    forall i: nat, j: nat :: i < |writes| && j < |writes|
                             && OneStorage(m, writes, |writes|, WritePage(writes[i]), WritePage(writes[j]))
      ==> writes[i].data == writes[j].data
  }

  ghost predicate AllWritten(m: Memory, m': Memory, writes: seq<PageWrite>)
    requires GoodWrites(m, writes)
  {
    forall i: nat :: i < |writes| ==>
      Loadable(m', WritePage(writes[i])) && LoadPage(m', WritePage(writes[i])) == writes[i].data.value
  }

  lemma AllWrittenExactly(m: Memory, m': Memory, writes: seq<PageWrite>)
    requires GoodWrites(m, writes) && Inv(m) && Committed(m, m', writes, |writes|)
    ensures AllWritten(m, m', writes) <==> WritesAgree(m, writes)
  {
    hide Counted, Stamped, Shares, Copies, AmongWrites, LoadPage, Loadable;
    var n := |writes|;
    forall i: nat | i < n ensures Loadable(m, WritePage(writes[i])) {
      InvLoadable(m, WritePage(writes[i]));
    }
    if AllWritten(m, m', writes) {
      forall i: nat, j: nat | i < n && j < n && OneStorage(m, writes, n, WritePage(writes[i]), WritePage(writes[j]))
        ensures writes[i].data == writes[j].data
      {
        SharedContent(m', WritePage(writes[i]), WritePage(writes[j]));
      }
    }
  }

  /** A page no write of the call reaches. */
  ghost predicate OutOfReach(m: Memory, writes: seq<PageWrite>, q: nat) {
    Loadable(m, q)
    && forall i: nat :: i < |writes| ==> !OneStorage(m, writes, |writes|, WritePage(writes[i]), q)
  }

  /** Every page out of reach keeps its bytes. */
  ghost predicate OthersUntouched(m: Memory, m': Memory, writes: seq<PageWrite>) {
    forall q: nat :: OutOfReach(m, writes, q) ==> Loadable(m', q) && LoadPage(m', q) == LoadPage(m, q)
  }

  lemma OutOfReachKept(m: Memory, m': Memory, writes: seq<PageWrite>)
    requires GoodWrites(m, writes) && Committed(m, m', writes, |writes|)
    ensures OthersUntouched(m, m', writes)
  {
    hide OneStorage, LoadPage;
  }

  ghost predicate GuardUsed(m: Memory, m': Memory, t: TransactionId, p: nat)
    requires p in m.pages
  {
    && m'.pages == GuardCleared(m, p).pages && m'.generation == m.generation + 1
    && m'.backings == m.backings && m'.host == m.host
    && m'.transactions.Keys == m.transactions.Keys
    && (forall u :: u in m.transactions && u != t ==> m'.transactions[u] == m.transactions[u])
  }

  lemma GuardRun(m: Memory, t: TransactionId, p: nat)
    requires t in m.transactions && Backed(m, p)
    ensures GuardUsed(m, Run(m, GuardEdits(m, t, p)), t, p)
  {
    hide Run, Apply, GuardCleared, Unguarded, FindDependency;
    var ds := m.transactions[t].dependencies;
    var i := FindDependency(ds, p);
    var protect := [Protect(p, Unguarded(m.pages[p].protection))];
    var record := if i.None? then [] else [RefreshGuard(t, i.value, ds[i.value].contentHash)];
    ClearGuard(m, p);
    GuardOnly(m, t, p);
    NoEdits(GuardCleared(m, p));
    RunAppend(m, protect, record);
    if i.Some? {
      OneEdit(GuardCleared(m, p), record[0]);
      GuardRecord(m, GuardCleared(m, p), t, p, i.value, ds[i.value].contentHash);
    }
  }

  lemma GuardOnly(m: Memory, t: TransactionId, p: nat)
    requires Backed(m, p)
    ensures GuardUsed(m, GuardCleared(m, p), t, p)
  {
  }

  lemma GuardRecord(m: Memory, m1: Memory, t: TransactionId, p: nat, i: nat, contentHash: nat)
    requires p in m.pages && GuardUsed(m, m1, t, p)
    ensures GuardUsed(m, Apply(m1, RefreshGuard(t, i, contentHash)), t, p)
  {
    hide GuardCleared;
  }

  /**
   `commit_pages` is all or nothing, and it succeeds exactly when every record is current, every write is in
   order and nothing stands in its way.  An error changes nothing, except that `GuardPage` disarms exactly the
   first armed guard, met before any copy is refused, and leaves the records current.  On success every page
   shows the data of the last write that reaches it; so all pages hold the data asked for exactly when writes to
   one storage agree, and a page out of reach, in particular another alias of a copied page, keeps its bytes.  A
   record of owned storage is current afterwards exactly when no other page's write came last.
   */
  lemma CommitPagesCall(
    m: Memory, t: TransactionId, writes: seq<PageWrite>, granted: seq<bool>, cells: seq<Fresh>, hash: ContentHash)
    requires Inv(m) && t in m.transactions && |granted| == |cells| == |writes| && Allocated(m, cells)
    ensures var plan := CommitPagesPlan(m, t, writes, granted, cells, hash);
            var m' := Run(m, plan.edits);
            && Inv(m')
            && (plan.error != Ok && plan.error != GuardPage ==> m' == m)
            && (plan.error == GuardPage ==>
                  && (Orderly(m, t) ==> Orderly(m', t) && RecordsFollow(m, m', t, hash))
                  && exists i: nat ::
                       && i < |writes| && Backed(m, WritePage(writes[i]))
                       && m.pages[WritePage(writes[i])].protection.guard
                       && (forall k: nat :: k < i ==> WriteObstacle(m, writes, granted, k) == Ok)
                       && GuardUsed(m, m', t, WritePage(writes[i])))
            && CommitOutcome(m, t, writes, granted, hash, plan.error)
            && (plan.error == Ok ==> PagesAfter(m, m', writes, |writes|))
            && (plan.error == Ok && Orderly(m, t) ==> Orderly(m', t) && RecordsSettled(m, m', t, writes, hash))
            && (plan.error == Ok ==>
                  && GoodWrites(m, writes) && Committed(m, m', writes, |writes|)
                  && t in m'.transactions && m'.transactions[t].inFlight == m.transactions[t].inFlight
                  && (AllWritten(m, m', writes) <==> WritesAgree(m, writes))
                  && OthersUntouched(m, m', writes))
  {
    hide Inv, Run, Committed, AllWritten, WritesAgree, GuardUsed, GuardEdits, WriteEdits, LetGos, Allocated,
         OthersUntouched, LoadPage, CheckWrites, Loadable, Current, Orderly, RecordsFollow, RecordsSettled, Passes, WriteObstacle,
         CommitOutcome, PagesAfter;
    var plan := CommitPagesPlan(m, t, writes, granted, cells, hash);
    var m' := Run(m, plan.edits);
    InvOverRun(m, plan.edits);
    NoEdits(m);
    CommitDecides(m, t, writes, granted, cells, hash);
    if plan.error == Ok {
      CheckedWritesAreGood(m, writes);
      CommitPagesAfter(m, t, writes, cells, hash);
      CommitAndLetGo(m, t, writes, cells, hash);
      AllWrittenExactly(m, m', writes);
      OutOfReachKept(m, m', writes);
      if Orderly(m, t) {
        CommitRecords(m, t, writes, cells, hash);
      }
    } else if plan.error == GuardPage {
      var i := FirstObstacle(m, writes, granted, 0).index;
      forall k: nat | k < i ensures WriteObstacle(m, writes, granted, k) == Ok {
        PassesWithoutObstacle(m, writes, granted, k);
      }
      CheckedWritesAreGood(m, writes);
      GuardRun(m, t, WritePage(writes[i]));
      if Orderly(m, t) {
        GuardRecords(m, t, WritePage(writes[i]), hash);
      }
    }
  }

  /** A `finish` right after a commit, when every recorded page is owned: it succeeds exactly if each page's own write came last. */
  lemma FinishAfterCommit(
    m: Memory, t: TransactionId, writes: seq<PageWrite>, granted: seq<bool>, cells: seq<Fresh>, hash: ContentHash)
    requires Inv(m) && Orderly(m, t) && |granted| == |cells| == |writes| && Allocated(m, cells)
    requires CommitPagesPlan(m, t, writes, granted, cells, hash).error == Ok
    ensures var m' := Run(m, CommitPagesPlan(m, t, writes, granted, cells, hash).edits);
            t in m'.transactions
            && var ds := m'.transactions[t].dependencies;
            && ((forall i: nat :: i < |ds| ==> OwnWriteLast(m, writes, |writes|, ds[i].page)) ==> Finish(m', t, hash).error == Ok)
            && ((forall i: nat :: i < |ds| ==> IsInternal(m', ds[i].backing)) ==>
                  (Finish(m', t, hash).error == Ok <==>
                     forall i: nat :: i < |ds| ==> OwnWriteLast(m, writes, |writes|, ds[i].page)))
  {
    hide Inv, Run, CommitPagesPlan, Allocated, Orderly, OwnWriteLast, Current;
    OrderlyHas(m, t);
    CommitPagesCall(m, t, writes, granted, cells, hash);
  }
}

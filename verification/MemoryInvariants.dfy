/**
 What every edit keeps: reference counts equal to the references that exist, generation stamps
 bounded by the counter, and host pages known; and how page and backing stamps move.
 */
module MemoryInvariants {
  import opened Options
  import opened GuestMemory

  // ---- Reference counting ----

  /** Everything that can hold a counted reference to a backing. */
  datatype Holder =
    | PageRef(page: nat)
    | DependencyRef(transaction: TransactionId, index: nat)
    | CommitRef(transaction: TransactionId, index: nat)

  ghost function Held(m: Memory, h: Holder): Option<BackingId> {
    match h
    case PageRef(p) => if p in m.pages then m.pages[p].backing else None
    case DependencyRef(t, i) =>
      if HasDependency(m, t, i) then Some(m.transactions[t].dependencies[i].backing) else None
    case CommitRef(t, i) =>
      if t in m.transactions && i < |m.transactions[t].inFlight| then Some(m.transactions[t].inFlight[i]) else None
  }

  ghost function AllHolders(m: Memory): (hs: set<Holder>)
    ensures forall h :: Held(m, h).Some? ==> h in hs
  {
    (set p | p in m.pages :: PageRef(p))
    + (set t, i: nat | t in m.transactions && 0 <= i < |m.transactions[t].dependencies| :: DependencyRef(t, i))
    + (set t, i: nat | t in m.transactions && 0 <= i < |m.transactions[t].inFlight| :: CommitRef(t, i))
  }

  ghost function Holders(m: Memory, b: BackingId): (hs: set<Holder>)
    ensures forall h :: h in hs <==> Held(m, h) == Some(b)
  {
    set h | h in AllHolders(m) && Held(m, h) == Some(b)
  }

  ghost function Refs(m: Memory, b: BackingId): nat {
    if b in m.backings then m.backings[b].refs else 0
  }

  /** Each backing's count is the number of its holders, none is zero, and no holder dangles. */
  ghost predicate Counted(m: Memory) {
    forall b: BackingId :: Refs(m, b) == |Holders(m, b)| && (b in m.backings <==> Refs(m, b) > 0)
  }

  /** No stamp is ahead of the counter that issues them. */
  ghost predicate Stamped(m: Memory) {
    && (forall p :: p in m.pages ==> m.pages[p].generation <= m.generation)
    && (forall b :: b in m.backings ==> m.backings[b].generation <= m.generation)
  }

  ghost predicate HostsKnown(m: Memory) {
    forall b :: b in m.backings ==> ReadableBacking(m, b)
  }

  ghost predicate Inv(m: Memory) {
    Counted(m) && Stamped(m) && HostsKnown(m)
  }

  function One(held: Option<BackingId>, b: BackingId): nat {
    if held == Some(b) then 1 else 0
  }

  lemma OneMemberApart<T>(a: set<T>, b: set<T>, x: T)
    requires a - {x} == b - {x}
    ensures |b| == |a| - (if x in a then 1 else 0) + (if x in b then 1 else 0)
  {
    assert x in a ==> a == (a - {x}) + {x};
    assert x in b ==> b == (b - {x}) + {x};
  }

  lemma HolderCount(m: Memory, m': Memory, h: Holder, b: BackingId)
    requires forall g :: g != h ==> Held(m', g) == Held(m, g)
    ensures |Holders(m', b)| == |Holders(m, b)| - One(Held(m, h), b) + One(Held(m', h), b)
  {
    var before, after := Holders(m, b), Holders(m', b);
    forall g ensures g in before - {h} <==> g in after - {h} {
      assert g != h ==> Held(m', g) == Held(m, g);
    }
    OneMemberApart(before, after, h);
  }

  /** Counting survives any edit that changes one holder and adjusts the two counts concerned. */
  lemma Reheld(m: Memory, m': Memory, h: Holder)
    requires Counted(m)
    requires forall g :: g != h ==> Held(m', g) == Held(m, g)
    requires forall b :: b in m'.backings <==> Refs(m', b) > 0
    requires forall b :: Refs(m', b) == Refs(m, b) - One(Held(m, h), b) + One(Held(m', h), b)
    ensures Counted(m')
  {
    forall b: BackingId ensures Refs(m', b) == |Holders(m', b)| {
      HolderCount(m, m', h, b);
    }
  }

  lemma HolderAlive(m: Memory, h: Holder)
    requires Counted(m) && Held(m, h).Some?
    ensures Held(m, h).value in m.backings
  {
    assert h in Holders(m, Held(m, h).value);
  }

  lemma MappedIsBacked(m: Memory, p: nat)
    requires Counted(m) && p in m.pages && m.pages[p].backing.Some?
    ensures Backed(m, p)
  {
    HolderAlive(m, PageRef(p));
  }

  /** The holder whose reference an edit may move; edits that move none name their page. */
  ghost function HolderOf(m: Memory, e: Edit): Holder {
    match e
    case Pin(t, _, _) => DependencyRef(t, if t in m.transactions then |m.transactions[t].dependencies| else 0)
    case Refresh(t, i, _) => DependencyRef(t, i)
    case RefreshGuard(t, i, _) => DependencyRef(t, i)
    case Unpin(t) =>
      DependencyRef(t, if t in m.transactions && m.transactions[t].dependencies != []
                       then |m.transactions[t].dependencies| - 1 else 0)
    case Hold(t, _) => CommitRef(t, if t in m.transactions then |m.transactions[t].inFlight| else 0)
    case LetGo(t) =>
      CommitRef(t, if t in m.transactions && m.transactions[t].inFlight != []
                   then |m.transactions[t].inFlight| - 1 else 0)
    case HostStore(_, _) => PageRef(0)
    case Burn => PageRef(0)
    case Begin(t) => DependencyRef(t, 0)
    case End(t) => DependencyRef(t, 0)
    case _ => PageRef(e.page)
  }

  predicate TransactionEdit(e: Edit) {
    e.Begin? || e.Pin? || e.Refresh? || e.RefreshGuard? || e.Unpin? || e.Hold? || e.LetGo? || e.End?
  }

  lemma PageHolderMoves(m: Memory, e: Edit)
    requires Enabled(m, e) && !TransactionEdit(e)
    ensures forall g :: g != HolderOf(m, e) ==> Held(Do(m, e), g) == Held(m, g)
  {
  }

  lemma OneHolderMoves(m: Memory, e: Edit)
    requires Enabled(m, e)
    ensures forall g :: g != HolderOf(m, e) ==> Held(Do(m, e), g) == Held(m, g)
  {
    if !TransactionEdit(e) {
      PageHolderMoves(m, e);
    }
  }

  /** Every backing is referenced, and what this holder points at has not been freed. */
  ghost predicate Live(m: Memory, h: Holder) {
    && (forall b :: b in m.backings ==> m.backings[b].refs > 0)
    && (Held(m, h).Some? ==> Held(m, h).value in m.backings)
  }

  ghost predicate CountsMove(m: Memory, m': Memory, h: Holder) {
    && (forall b :: b in m'.backings <==> Refs(m', b) > 0)
    && (forall b :: Refs(m', b) == Refs(m, b) - One(Held(m, h), b) + One(Held(m', h), b))
  }

  lemma FreshHomeCounts(m: Memory, p: nat, cell: Fresh, data: Data)
    requires Live(m, PageRef(p)) && p in m.pages && cell.id !in m.backings
    ensures CountsMove(m, Rehome(AddBacking(m, cell, data), p, cell.id), PageRef(p))
  {
  }

  lemma SharedHomeCounts(m: Memory, p: nat, b: BackingId)
    requires Live(m, PageRef(p)) && p in m.pages && b in m.backings
    ensures CountsMove(m, SharePage(m, p, b), PageRef(p))
  {
  }

  /** Touching, storing bytes and changing a protection leave every count and holder alone. */
  ghost predicate SameCounts(m: Memory, m': Memory) {
    && (forall b :: b in m'.backings <==> b in m.backings)
    && (forall b :: b in m.backings ==> m'.backings[b].refs == m.backings[b].refs)
    && (forall h :: Held(m', h) == Held(m, h))
  }

  lemma StoreThroughSameCounts(m: Memory, p: nat, bytes: PageBytes)
    requires Backed(m, p) && ReadableBacking(m, BackingOf(m, p))
    ensures SameCounts(m, StoreThrough(m, p, bytes))
  {
  }

  lemma SameCountsAfter(m: Memory, m1: Memory, m2: Memory, h: Holder)
    requires CountsMove(m, m1, h) && SameCounts(m1, m2)
    ensures CountsMove(m, m2, h)
  {
  }

  lemma PublishCounts(m: Memory, p: nat, copy: Option<Fresh>, bytes: PageBytes)
    requires Live(m, PageRef(p)) && Enabled(m, Publish(p, copy, bytes))
    ensures CountsMove(m, PublishPage(m, p, copy, bytes), PageRef(p))
  {
    if copy.Some? {
      FreshHomeCounts(m, p, copy.value, m.backings[BackingOf(m, p)].data);
    }
    SameCountsAfter(m, Prepared(m, p, copy), PublishPage(m, p, copy, bytes), PageRef(p)) by {
      StoreThroughSameCounts(Prepared(m, p, copy), p, bytes);
    }
  }

  lemma DropCounts(m: Memory, m': Memory, h: Holder)
    requires Live(m, h) && Held(m', h).None?
    requires m'.backings == DropOption(m.backings, Held(m, h))
    ensures CountsMove(m, m', h)
  {
  }

  lemma RefreshCounts(m: Memory, t: TransactionId, i: nat, contentHash: nat)
    requires Live(m, DependencyRef(t, i)) && HasDependency(m, t, i) && Backed(m, m.transactions[t].dependencies[i].page)
    ensures CountsMove(m, RefreshPin(m, t, i, contentHash), DependencyRef(t, i))
  {
  }

  lemma CountsFollowStore(m: Memory, e: Edit)
    requires Live(m, HolderOf(m, e)) && Enabled(m, e) && (e.Store? || e.Publish?)
    ensures CountsMove(m, Do(m, e), HolderOf(m, e))
  {
    hide StoreThrough, Prepared;
    match e
    case Store(p, _, _) => StoreThroughSameCounts(m, p, Overwrite(Contents(m, BackingOf(m, p)), e.offset, e.bytes));
    case Publish(p, copy, bytes) => PublishCounts(m, p, copy, bytes);
  }

  lemma CountsFollowPage(m: Memory, e: Edit)
    requires Live(m, HolderOf(m, e)) && Enabled(m, e)
    requires e.Commit? || e.Detach? || e.Replace? || e.Share?
    ensures CountsMove(m, Do(m, e), HolderOf(m, e))
  {
    match e
    case Commit(p, cell, data, _) =>
      if m.pages[p].backing.None? {
        FreshHomeCounts(m, p, cell, data);
      }
    case Detach(p, cell) => FreshHomeCounts(m, p, cell, m.backings[BackingOf(m, p)].data);
    case Replace(p, cell, host) => FreshHomeCounts(m, p, cell, External(host));
    case Share(p, source) => SharedHomeCounts(m, p, BackingOf(m, source));
  }

  lemma CountsFollowDrop(m: Memory, e: Edit)
    requires Live(m, HolderOf(m, e)) && Enabled(m, e)
    requires e.Decommit? || e.Remove? || e.Unpin? || e.LetGo? || e.Refresh?
    ensures CountsMove(m, Do(m, e), HolderOf(m, e))
  {
    match e
    case Decommit(_) => DropCounts(m, Do(m, e), HolderOf(m, e));
    case Remove(_) => DropCounts(m, Do(m, e), HolderOf(m, e));
    case Unpin(_) => DropCounts(m, Do(m, e), HolderOf(m, e));
    case LetGo(_) => DropCounts(m, Do(m, e), HolderOf(m, e));
    case Refresh(t, i, contentHash) => RefreshCounts(m, t, i, contentHash);
  }

  lemma CountsFollow(m: Memory, e: Edit)
    requires Live(m, HolderOf(m, e)) && Enabled(m, e)
    ensures CountsMove(m, Do(m, e), HolderOf(m, e))
  {
    if e.Commit? || e.Detach? || e.Replace? || e.Share? {
      CountsFollowPage(m, e);
    } else if e.Store? || e.Publish? {
      CountsFollowStore(m, e);
    } else if e.Decommit? || e.Remove? || e.Unpin? || e.LetGo? || e.Refresh? {
      CountsFollowDrop(m, e);
    }
  }

  lemma CountedLive(m: Memory, h: Holder)
    requires Counted(m)
    ensures Live(m, h)
  {
    forall b | b in m.backings ensures m.backings[b].refs > 0 {
      assert Refs(m, b) > 0;
    }
    if Held(m, h).Some? {
      HolderAlive(m, h);
    }
  }

  /** Reference-count conservation, for every edit. */
  lemma CountedPreserved(m: Memory, e: Edit)
    requires Counted(m)
    ensures Counted(Apply(m, e))
  {
    if Enabled(m, e) {
      OneHolderMoves(m, e);
      CountedLive(m, HolderOf(m, e));
      CountsFollow(m, e);
      Reheld(m, Do(m, e), HolderOf(m, e));
    }
  }

  // ---- Stamps ----

  /** A page as it was: same stamp, same backing and, over owned storage, the same protection. */
  ghost predicate PageKept(m: Memory, m': Memory, p: nat) {
    && p in m.pages && p in m'.pages
    && m'.pages[p].generation == m.pages[p].generation
    && m'.pages[p].backing == m.pages[p].backing
    && (m.pages[p].backing.Some? && IsInternal(m, m.pages[p].backing.value) ==>
          m'.pages[p].protection == m.pages[p].protection)
  }

  ghost predicate BackingKept(m: Memory, m': Memory, b: BackingId) {
    && b in m.backings && b in m'.backings
    && m'.backings[b].generation == m.backings[b].generation
    && m'.backings[b].data == m.backings[b].data
  }

  /** Whatever an edit changes carries a stamp newer than every stamp issued before it. */
  ghost predicate Advances(m: Memory, m': Memory) {
    && m.generation <= m'.generation
    && (forall p :: p in m'.pages ==> PageKept(m, m', p) || m'.pages[p].generation > m.generation)
    && (forall b :: b in m.backings && b in m'.backings ==>
          BackingKept(m, m', b) || m'.backings[b].generation > m.generation)
  }

  ghost predicate Sound(m: Memory, m': Memory) {
    && Advances(m, m')
    && (Stamped(m) ==> Stamped(m'))
    && (HostsKnown(m) ==> HostsKnown(m'))
  }

  lemma CommitSound(m: Memory, p: nat, cell: Fresh, data: Data, protection: Protection)
    requires Enabled(m, Commit(p, cell, data, protection))
    ensures Sound(m, CommitPage(m, p, cell, data, protection))
  {
  }

  lemma ReplaceSound(m: Memory, p: nat, cell: Fresh, host: nat)
    requires Enabled(m, Replace(p, cell, host))
    ensures Sound(m, ReplacePage(m, p, cell, host))
  {
  }

  lemma ShareSound(m: Memory, p: nat, b: BackingId)
    requires p in m.pages && b in m.backings
    ensures Sound(m, SharePage(m, p, b))
  {
  }

  lemma DetachSound(m: Memory, p: nat, cell: Fresh)
    requires Enabled(m, Detach(p, cell))
    ensures Sound(m, TouchPage(Detached(m, p, cell), p))
  {
  }

  lemma StoreSound(m: Memory, p: nat, bytes: PageBytes)
    requires Backed(m, p) && ReadableBacking(m, BackingOf(m, p))
    ensures Sound(m, StoreThrough(m, p, bytes))
  {
  }

  lemma StoreStamps(m: Memory, p: nat, bytes: PageBytes)
    requires Backed(m, p) && ReadableBacking(m, BackingOf(m, p))
    ensures var m' := StoreThrough(m, p, bytes); var b := BackingOf(m, p);
            && m'.generation == m.generation + 2
            && m'.pages == m.pages[p := m.pages[p].(generation := m.generation + 2)]
            && m'.backings.Keys == m.backings.Keys
            && m'.backings[b].generation == m.generation + 1
            && (forall c :: c in m.backings && c != b ==> m'.backings[c] == m.backings[c])
  {
  }

  lemma PreparedFrame(m: Memory, p: nat, copy: Option<Fresh>)
    requires Backed(m, p) && (copy.Some? ==> NeedsCopy(m, p) && IsFresh(m, copy.value))
    ensures var m1 := Prepared(m, p, copy);
            && m1.generation == m.generation && Backed(m1, p)
            && m1.pages.Keys == m.pages.Keys
            && (forall q :: q in m.pages && q != p ==> m1.pages[q] == m.pages[q])
            && (forall c :: c in m.backings && c in m1.backings ==> BackingKept(m, m1, c))
            && (Stamped(m) ==> Stamped(m1)) && (HostsKnown(m) ==> HostsKnown(m1))
  {
  }

  /** The unstamped half of `Publish` is stamped by the store that follows it. */
  lemma PublishSound(m: Memory, p: nat, copy: Option<Fresh>, bytes: PageBytes)
    requires Enabled(m, Publish(p, copy, bytes))
    ensures Sound(m, PublishPage(m, p, copy, bytes))
  {
    hide StoreThrough, Prepared;
    var m1 := Prepared(m, p, copy);
    PreparedFrame(m, p, copy);
    PreparedReadable(m, p, copy);
    StoreSound(m1, p, bytes);
    StoreStamps(m1, p, bytes);
  }

  lemma PreparedReadable(m: Memory, p: nat, copy: Option<Fresh>)
    requires Enabled(m, Publish(p, copy, seq(PAGE_SIZE, _ => 0)))
    ensures Backed(Prepared(m, p, copy), p)
    ensures ReadableBacking(Prepared(m, p, copy), BackingOf(Prepared(m, p, copy), p))
  {
  }

  lemma MappingEditSound(m: Memory, e: Edit)
    requires Enabled(m, e)
    requires e.Reserve? || e.Alias? || e.Protect? || e.Rebase?
    ensures Sound(m, Do(m, e))
  {
  }

  lemma UnmappingEditSound(m: Memory, e: Edit)
    requires Enabled(m, e) && (e.Decommit? || e.Remove?)
    ensures Sound(m, Do(m, e))
  {
  }

  lemma TransactionEditSound(m: Memory, e: Edit)
    requires Enabled(m, e)
    requires TransactionEdit(e)
    ensures Sound(m, Do(m, e))
  {
    var m' := Do(m, e);
    assert m'.pages == m.pages && m'.generation == m.generation && m'.host == m.host;
    assert forall b :: b in m'.backings ==> BackingKept(m, m', b);
  }

  lemma OtherEditSound(m: Memory, e: Edit)
    requires Enabled(m, e)
    requires e.PromoteExternal? || e.HostStore? || e.Burn?
    ensures Sound(m, Do(m, e))
  {
  }

  /** Every edit stamps what it changes, and no stamp it issues was ever issued before. */
  lemma EditSound(m: Memory, e: Edit)
    ensures Sound(m, Apply(m, e))
  {
    hide Advances, Stamped, HostsKnown;
    if Enabled(m, e) {
      match e
      case Commit(p, cell, data, protection) => CommitSound(m, p, cell, data, protection);
      case Replace(p, cell, host) => ReplaceSound(m, p, cell, host);
      case Share(p, source) => ShareSound(m, p, BackingOf(m, source));
      case Detach(p, cell) => DetachSound(m, p, cell);
      case Store(p, offset, bytes) => StoreSound(m, p, Overwrite(Contents(m, BackingOf(m, p)), offset, bytes));
      case Publish(p, copy, bytes) => PublishSound(m, p, copy, bytes);
      case Reserve(_, _, _) => MappingEditSound(m, e);
      case Alias(_, _, _, _, _) => MappingEditSound(m, e);
      case Decommit(_) => UnmappingEditSound(m, e);
      case Protect(_, _) => MappingEditSound(m, e);
      case Rebase(_, _, _) => MappingEditSound(m, e);
      case Remove(_) => UnmappingEditSound(m, e);
      case PromoteExternal(_) => OtherEditSound(m, e);
      case HostStore(_, _) => OtherEditSound(m, e);
      case Burn => OtherEditSound(m, e);
      case _ => TransactionEditSound(m, e);
    } else {
      assert Sound(m, m) by { SoundRefl(m); }
    }
  }

  lemma SoundRefl(m: Memory)
    ensures Sound(m, m)
  {
  }

  lemma InvPreserved(m: Memory, e: Edit)
    requires Inv(m)
    ensures Inv(Apply(m, e))
  {
    CountedPreserved(m, e);
    EditSound(m, e);
  }

  /** Reference-count conservation and the rest of the invariant, over every run of edits. */
  lemma {:induction false} InvOverRun(m: Memory, edits: seq<Edit>)
    requires Inv(m)
    ensures Inv(Run(m, edits))
    decreases |edits|
  {
    if edits != [] {
      InvPreserved(m, edits[0]);
      InvOverRun(Apply(m, edits[0]), edits[1..]);
    }
  }
}

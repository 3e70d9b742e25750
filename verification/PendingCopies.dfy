/**
 Page copies that a commit still owes after it has given up the metadata lock.

 `Settled` is the memory as it will be once every owed copy has been made.  Functions that never look
 at owned bytes cannot tell the two apart, and edits commute with settling unless they read or
 overwrite a page whose copy is still owed.
 */
module PendingCopies {
  import opened Options
  import opened GuestMemory
  import opened MemoryInvariants
  import opened PagedAccess

  const LINE := 64
  const LINES := 64

  /** A copy of `data` into a backing, of which the first `line` cache lines are done. */
  datatype Copy = Copy(owner: TransactionId, backing: BackingId, data: PageBytes, line: nat)

  /** A page with one cache line copied. */
  function WithLine(bytes: PageBytes, data: PageBytes, line: nat): PageBytes
    requires line < LINES
  {
    Overwrite(bytes, line * LINE, data[line * LINE..(line + 1) * LINE])
  }

  /** How many of the first `k` cache lines of two pages differ. */
  function DifferingLines(x: PageBytes, y: PageBytes, k: nat): nat
    requires k <= LINES
  {
    if k == 0 then 0
    else DifferingLines(x, y, k - 1) + if x[(k - 1) * LINE..k * LINE] != y[(k - 1) * LINE..k * LINE] then 1 else 0
  }

  /** A page whose first `k` lines have been copied. */
  function Blend(x: PageBytes, y: PageBytes, k: nat): PageBytes
    requires k <= LINES
  {
    y[..k * LINE] + x[k * LINE..]
  }

  lemma NoLinesYet(x: PageBytes, y: PageBytes)
    ensures Blend(x, y, 0) == x
  {
  }

  lemma AllLines(x: PageBytes, y: PageBytes)
    ensures Blend(x, y, LINES) == y
  {
  }

  /** A line that is equal is copied by leaving it alone. */
  lemma BlendLine(x: PageBytes, y: PageBytes, k: nat)
    requires k < LINES
    ensures var b := Blend(x, y, k);
            && b[k * LINE..(k + 1) * LINE] == x[k * LINE..(k + 1) * LINE]
            && WithLine(b, y, k) == Blend(x, y, k + 1)
            && (x[k * LINE..(k + 1) * LINE] == y[k * LINE..(k + 1) * LINE] ==> Blend(x, y, k + 1) == b)
  {
    var b := Blend(x, y, k);
    assert x[k * LINE..] == x[k * LINE..(k + 1) * LINE] + x[(k + 1) * LINE..];
    assert y[..(k + 1) * LINE] == y[..k * LINE] + y[k * LINE..(k + 1) * LINE];
    assert b == y[..k * LINE] + x[k * LINE..(k + 1) * LINE] + x[(k + 1) * LINE..];
  }

  /** The last copy owed to a backing: it decides what the backing will hold. */
  function LastCopy(copies: seq<Copy>, b: BackingId): (i: Option<nat>)
    ensures i.Some? ==> i.value < |copies| && copies[i.value].backing == b
    ensures forall j :: (if i.Some? then i.value + 1 else 0) <= j < |copies| ==> copies[j].backing != b
  {
    if copies == [] then None
    else if copies[|copies| - 1].backing == b then Some(|copies| - 1)
    else LastCopy(copies[..|copies| - 1], b)
  }

  predicate Owed(copies: seq<Copy>, b: BackingId) {
    LastCopy(copies, b).Some?
  }

  function SettledBacking(backing: Backing, copies: seq<Copy>, b: BackingId): Backing {
    var i := LastCopy(copies, b);
    if i.None? then backing else backing.(data := Internal(copies[i.value].data))
  }

  function SettledMap(backings: map<BackingId, Backing>, copies: seq<Copy>): map<BackingId, Backing> {
    map b | b in backings :: SettledBacking(backings[b], copies, b)
  }

  function Settled(m: Memory, copies: seq<Copy>): Memory {
    m.(backings := SettledMap(m.backings, copies))
  }

  /** Copies go to owned storage that still exists. */
  ghost predicate CopiesLive(m: Memory, copies: seq<Copy>) {
    forall b :: Owed(copies, b) ==> IsInternal(m, b)
  }

  /** Alike in everything except the bytes of owned storage. */
  ghost predicate SameShape(m: Memory, m': Memory) {
    && m'.pages == m.pages && m'.host == m.host
    && m'.generation == m.generation && m'.transactions == m.transactions
    && (forall b :: b in m.backings <==> b in m'.backings)
    && (forall b :: b in m.backings ==>
          && m'.backings[b].refs == m.backings[b].refs
          && m'.backings[b].generation == m.backings[b].generation
          && (m'.backings[b].data.External? <==> m.backings[b].data.External?)
          && (m.backings[b].data.External? ==> m'.backings[b].data == m.backings[b].data))
  }

  lemma SettledSameShape(m: Memory, copies: seq<Copy>)
    requires CopiesLive(m, copies)
    ensures SameShape(m, Settled(m, copies))
  {
    var m' := Settled(m, copies);
    forall b | b in m.backings
      ensures b in m'.backings && (m.backings[b].data.External? ==> m'.backings[b] == m.backings[b])
      ensures m'.backings[b].data.External? <==> m.backings[b].data.External?
    {
      assert Owed(copies, b) ==> IsInternal(m, b);
    }
  }

  lemma NothingOwed(m: Memory)
    ensures Settled(m, []) == m
  {
    assert SettledMap(m.backings, []) == m.backings;
  }

  /** What edits ask about a memory, apart from bytes. */
  lemma SameShapeFacts(m: Memory, m': Memory)
    requires SameShape(m, m')
    ensures forall p: nat :: Backed(m', p) <==> Backed(m, p)
    ensures forall p: nat :: Backed(m, p) ==> BackingOf(m', p) == BackingOf(m, p) && (NeedsCopy(m', p) <==> NeedsCopy(m, p))
    ensures forall b :: ReadableBacking(m', b) <==> ReadableBacking(m, b)
    ensures forall f: Fresh :: IsFresh(m', f) <==> IsFresh(m, f)
    ensures m'.pages == m.pages && m'.host == m.host && m'.transactions == m.transactions
  {
  }

  lemma SameShapeEnabled(m: Memory, m': Memory, e: Edit)
    requires SameShape(m, m')
    ensures Enabled(m', e) <==> Enabled(m, e)
  {
    SameShapeFacts(m, m');
    hide ReadableBacking, IsFresh, NeedsCopy;
    if !e.PromoteExternal? {
      hide Backed, SameShape;
    }
  }

  // ---- Settling the backing map ----

  lemma SettledDrop(backings: map<BackingId, Backing>, copies: seq<Copy>, b: Option<BackingId>)
    ensures SettledMap(DropOption(backings, b), copies) == DropOption(SettledMap(backings, copies), b)
  {
  }

  lemma SettledRetain(backings: map<BackingId, Backing>, copies: seq<Copy>, b: BackingId)
    requires b in backings
    ensures SettledMap(Retain(backings, b), copies) == Retain(SettledMap(backings, copies), b)
  {
  }

  lemma SettledAdd(m: Memory, copies: seq<Copy>, cell: Fresh, data: Data)
    requires !Owed(copies, cell.id)
    ensures Settled(AddBacking(m, cell, data), copies) == AddBacking(Settled(m, copies), cell, data)
  {
    assert SettledMap(m.backings[cell.id := Backing(data, 1, cell.generation)], copies)
        == SettledMap(m.backings, copies)[cell.id := Backing(data, 1, cell.generation)];
  }

  lemma SettledTouch(m: Memory, copies: seq<Copy>, b: BackingId)
    requires b in m.backings
    ensures Settled(TouchBacking(m, b), copies) == TouchBacking(Settled(m, copies), b)
  {
    assert SettledMap(TouchBacking(m, b).backings, copies) == TouchBacking(Settled(m, copies), b).backings;
  }

  lemma SettledSetBytes(m: Memory, copies: seq<Copy>, b: BackingId, bytes: PageBytes)
    requires ReadableBacking(m, b) && !Owed(copies, b)
    ensures ReadableBacking(Settled(m, copies), b)
    ensures Settled(SetBytes(m, b, bytes), copies) == SetBytes(Settled(m, copies), b, bytes)
  {
    assert SettledMap(SetBytes(m, b, bytes).backings, copies) == SetBytes(Settled(m, copies), b, bytes).backings;
  }

  lemma SettledRehome(m: Memory, copies: seq<Copy>, p: nat, b: BackingId)
    requires p in m.pages
    ensures Settled(Rehome(m, p, b), copies) == Rehome(Settled(m, copies), p, b)
  {
    SettledDrop(m.backings, copies, m.pages[p].backing);
  }

  lemma SettledStore(m: Memory, copies: seq<Copy>, p: nat, bytes: PageBytes)
    requires Backed(m, p) && ReadableBacking(m, BackingOf(m, p)) && !Owed(copies, BackingOf(m, p))
    ensures Backed(Settled(m, copies), p) && ReadableBacking(Settled(m, copies), BackingOf(m, p))
    ensures Settled(StoreThrough(m, p, bytes), copies) == StoreThrough(Settled(m, copies), p, bytes)
  {
    var b := BackingOf(m, p);
    SettledSetBytes(m, copies, b, bytes);
    SettledTouch(SetBytes(m, b, bytes), copies, b);
  }

  // ---- Settling and edits ----

  lemma MapEditSettles(m: Memory, copies: seq<Copy>, e: Edit)
    requires CopiesLive(m, copies) && Enabled(m, e)
    requires e.Reserve? || e.Alias? || e.Decommit? || e.Protect? || e.Rebase? || e.Remove? || e.PromoteExternal?
             || e.HostStore? || e.Burn?
    ensures Enabled(Settled(m, copies), e)
    ensures Settled(Do(m, e), copies) == Do(Settled(m, copies), e)
  {
    hide SettledMap, Drop, DropOption, Retain;
    SettledSameShape(m, copies);
    SameShapeEnabled(m, Settled(m, copies), e);
    match e
    case Alias(_, _, _, source, _) => SettledRetain(m.backings, copies, BackingOf(m, source));
    case Decommit(p) => SettledDrop(m.backings, copies, m.pages[p].backing);
    case Remove(p) => SettledDrop(m.backings, copies, m.pages[p].backing);
    case _ =>
  }

  lemma CellEditSettles(m: Memory, copies: seq<Copy>, e: Edit)
    requires CopiesLive(m, copies) && Enabled(m, e) && (e.Commit? || e.Replace? || e.Share?)
    ensures Enabled(Settled(m, copies), e)
    ensures Settled(Do(m, e), copies) == Do(Settled(m, copies), e)
  {
    hide SettledMap, Drop, DropOption, Retain, Rehome;
    SettledSameShape(m, copies);
    SameShapeEnabled(m, Settled(m, copies), e);
    match e
    case Commit(p, cell, data, _) =>
      if m.pages[p].backing.None? {
        SettledAdd(m, copies, cell, data);
        SettledRehome(AddBacking(m, cell, data), copies, p, cell.id);
      }
    case Replace(p, cell, host) =>
      SettledAdd(m, copies, cell, External(host));
      SettledRehome(AddBacking(m, cell, External(host)), copies, p, cell.id);
    case Share(p, source) =>
      var b := BackingOf(m, source);
      SettledRetain(m.backings, copies, b);
      SettledRehome(m.(backings := Retain(m.backings, b)), copies, p, b);
  }

  lemma PinEditSettles(m: Memory, copies: seq<Copy>, e: Edit)
    requires CopiesLive(m, copies) && Enabled(m, e) && (e.Pin? || e.Hold?)
    ensures Enabled(Settled(m, copies), e)
    ensures Settled(Do(m, e), copies) == Do(Settled(m, copies), e)
  {
    hide SettledMap, Drop, Retain;
    SettledSameShape(m, copies);
    SameShapeEnabled(m, Settled(m, copies), e);
    SettledRetain(m.backings, copies, BackingOf(m, e.page));
  }

  lemma UnpinEditSettles(m: Memory, copies: seq<Copy>, e: Edit)
    requires CopiesLive(m, copies) && Enabled(m, e) && (e.Unpin? || e.LetGo?)
    ensures Enabled(Settled(m, copies), e)
    ensures Settled(Do(m, e), copies) == Do(Settled(m, copies), e)
  {
    hide SettledMap, Drop, Retain;
    SettledSameShape(m, copies);
    SameShapeEnabled(m, Settled(m, copies), e);
    if e.Unpin? {
      var ds := m.transactions[e.transaction].dependencies;
      SettledDropOne(m.backings, copies, ds[|ds| - 1].backing);
    } else {
      var held := m.transactions[e.transaction].inFlight;
      SettledDropOne(m.backings, copies, held[|held| - 1]);
    }
  }

  lemma TransactionEditSettles(m: Memory, copies: seq<Copy>, e: Edit)
    requires CopiesLive(m, copies) && Enabled(m, e) && (e.Begin? || e.RefreshGuard? || e.End?)
    ensures Enabled(Settled(m, copies), e)
    ensures Settled(Do(m, e), copies) == Do(Settled(m, copies), e)
  {
    hide SettledMap, Drop, Retain;
    SettledSameShape(m, copies);
    SameShapeEnabled(m, Settled(m, copies), e);
  }

  lemma RefreshSettles(m: Memory, copies: seq<Copy>, t: TransactionId, i: nat, contentHash: nat)
    requires CopiesLive(m, copies) && Enabled(m, Refresh(t, i, contentHash))
    ensures Enabled(Settled(m, copies), Refresh(t, i, contentHash))
    ensures Settled(RefreshPin(m, t, i, contentHash), copies) == RefreshPin(Settled(m, copies), t, i, contentHash)
  {
    hide SettledMap, Drop, Retain;
    SettledSameShape(m, copies);
    var d := m.transactions[t].dependencies[i];
    SettledRetain(m.backings, copies, BackingOf(m, d.page));
    SettledDropOne(Retain(m.backings, BackingOf(m, d.page)), copies, d.backing);
  }

  lemma SettledDropOne(backings: map<BackingId, Backing>, copies: seq<Copy>, b: BackingId)
    ensures SettledMap(Drop(backings, b), copies) == Drop(SettledMap(backings, copies), b)
  {
    SettledDrop(backings, copies, Some(b));
  }

  lemma DetachedSettles(m: Memory, copies: seq<Copy>, p: nat, cell: Fresh)
    requires CopiesLive(m, copies) && Backed(m, p) && IsInternal(m, BackingOf(m, p)) && !Owed(copies, cell.id)
    requires !Owed(copies, BackingOf(m, p))
    ensures Backed(Settled(m, copies), p) && IsInternal(Settled(m, copies), BackingOf(m, p))
    ensures Settled(Detached(m, p, cell), copies) == Detached(Settled(m, copies), p, cell)
  {
    hide Rehome;
    var data := m.backings[BackingOf(m, p)].data;
    SettledAdd(m, copies, cell, data);
    SettledRehome(AddBacking(m, cell, data), copies, p, cell.id);
    RehomedPage(AddBacking(m, cell, data), p, cell.id);
    RehomedPage(AddBacking(Settled(m, copies), cell, data), p, cell.id);
  }

  lemma RehomedPage(m: Memory, p: nat, b: BackingId)
    requires p in m.pages
    ensures p in Rehome(m, p, b).pages
  {
  }

  /** An edit that reads or overwrites owned bytes commutes with settling unless a copy of them is owed. */
  lemma EditSettles(m: Memory, copies: seq<Copy>, e: Edit)
    requires CopiesLive(m, copies) && !e.Publish?
    requires (e.Store? || e.Detach?) && Enabled(m, e) ==> !Owed(copies, BackingOf(m, e.page))
    ensures Settled(Apply(m, e), copies) == Apply(Settled(m, copies), e)
  {
    hide SettledMap, StoreThrough, Detached;
    SettledSameShape(m, copies);
    SameShapeEnabled(m, Settled(m, copies), e);
    if Enabled(m, e) {
      if e.Refresh? {
        RefreshSettles(m, copies, e.transaction, e.index, e.contentHash);
      } else if e.Pin? || e.Hold? {
        PinEditSettles(m, copies, e);
      } else if e.Unpin? || e.LetGo? {
        UnpinEditSettles(m, copies, e);
      } else if TransactionEdit(e) {
        TransactionEditSettles(m, copies, e);
      } else if e.Commit? || e.Replace? || e.Share? {
        CellEditSettles(m, copies, e);
      } else if e.Store? {
        StoreEditSettles(m, copies, e.page, e.offset, e.bytes);
      } else if e.Detach? {
        DetachedSettles(m, copies, e.page, e.cell);
      } else {
        MapEditSettles(m, copies, e);
      }
    }
  }

  lemma StoreEditSettles(m: Memory, copies: seq<Copy>, p: nat, offset: nat, bytes: seq<Byte>)
    requires CopiesLive(m, copies) && Enabled(m, Store(p, offset, bytes)) && !Owed(copies, BackingOf(m, p))
    ensures Enabled(Settled(m, copies), Store(p, offset, bytes))
    ensures Settled(Do(m, Store(p, offset, bytes)), copies) == Do(Settled(m, copies), Store(p, offset, bytes))
  {
    hide StoreThrough, Overwrite;
    SettledSameShape(m, copies);
    SameShapeEnabled(m, Settled(m, copies), Store(p, offset, bytes));
    assert Contents(Settled(m, copies), BackingOf(m, p)) == Contents(m, BackingOf(m, p));
    SettledStore(m, copies, p, Overwrite(Contents(m, BackingOf(m, p)), offset, bytes));
  }

  // ---- Publishing with the bytes still to come ----

  lemma LastCopyAppended(copies: seq<Copy>, c: Copy, b: BackingId)
    ensures LastCopy(copies + [c], b) == if c.backing == b then Some(|copies|) else LastCopy(copies, b)
  {
    assert (copies + [c])[..|copies|] == copies;
  }

  lemma StoredState(x: Memory, p: nat, bytes: PageBytes)
    requires Backed(x, p) && IsInternal(x, BackingOf(x, p))
    ensures StoreThrough(x, p, bytes) == x.(
              pages := x.pages[p := x.pages[p].(generation := x.generation + 2)],
              generation := x.generation + 2,
              backings := x.backings[BackingOf(x, p) :=
                Backing(Internal(bytes), x.backings[BackingOf(x, p)].refs, x.generation + 1)])
  {
    var b := BackingOf(x, p);
    assert StoreThrough(x, p, bytes).backings
        == x.backings[b := Backing(Internal(bytes), x.backings[b].refs, x.generation + 1)];
  }

  lemma OwedEntry(backings: map<BackingId, Backing>, copies: seq<Copy>, c: Copy, v: Backing)
    requires c.backing in backings && v.data.Internal?
    ensures SettledMap(backings[c.backing := v], copies + [c])
         == SettledMap(backings, copies)[c.backing := v.(data := Internal(c.data))]
  {
    forall b | b in backings
      ensures SettledBacking(backings[b], copies + [c], b)
           == if b == c.backing then backings[b].(data := Internal(c.data)) else SettledBacking(backings[b], copies, b)
    {
      LastCopyAppended(copies, c, b);
    }
    LastCopyAppended(copies, c, c.backing);
  }

  /** A store whose bytes are still owed is, once settled, the store of the bytes owed. */
  lemma OwedStoreSettles(x: Memory, copies: seq<Copy>, p: nat, bytes: PageBytes, c: Copy)
    requires Backed(x, p) && IsInternal(x, BackingOf(x, p)) && c.backing == BackingOf(x, p)
    ensures Backed(Settled(x, copies), p) && IsInternal(Settled(x, copies), BackingOf(x, p))
    ensures Settled(StoreThrough(x, p, bytes), copies + [c]) == StoreThrough(Settled(x, copies), p, c.data)
  {
    hide StoreThrough;
    var b := BackingOf(x, p);
    StoredState(x, p, bytes);
    StoredState(Settled(x, copies), p, c.data);
    OwedEntry(x.backings, copies, c, Backing(Internal(bytes), x.backings[b].refs, x.generation + 1));
  }

  /** Storing a whole page hides what the storage held before. */
  lemma StoreHides(y: Memory, z: Memory, p: nat, bytes: PageBytes)
    requires Backed(y, p) && IsInternal(y, BackingOf(y, p)) && IsInternal(z, BackingOf(y, p))
    requires z == y.(backings := z.backings) && z.backings.Keys == y.backings.Keys
    requires forall b :: b in y.backings && b != BackingOf(y, p) ==> z.backings[b] == y.backings[b]
    requires z.backings[BackingOf(y, p)].refs == y.backings[BackingOf(y, p)].refs
    ensures StoreThrough(y, p, bytes) == StoreThrough(z, p, bytes)
  {
    assert StoreThrough(y, p, bytes).backings == StoreThrough(z, p, bytes).backings;
  }

  lemma DetachedShape(m: Memory, p: nat, cell: Fresh)
    requires Backed(m, p) && IsInternal(m, BackingOf(m, p)) && cell.id !in m.backings
    ensures var x := Detached(m, p, cell);
            && Backed(x, p) && BackingOf(x, p) == cell.id
            && x.backings == DropOption(
                 m.backings[cell.id := Backing(m.backings[BackingOf(m, p)].data, 1, cell.generation)],
                 m.pages[p].backing)
            && x.backings[cell.id] == Backing(m.backings[BackingOf(m, p)].data, 1, cell.generation)
  {
  }

  lemma DropApart(backings: map<BackingId, Backing>, id: BackingId, v: Backing, w: Backing, b: Option<BackingId>)
    requires b != Some(id) && v.refs == w.refs
    ensures var y, z := DropOption(backings[id := v], b), DropOption(backings[id := w], b);
            && z.Keys == y.Keys && id in y && y[id] == v && z[id] == w
            && (forall c :: c in y && c != id ==> z[c] == y[c])
  {
  }

  lemma SettledWith(backings: map<BackingId, Backing>, copies: seq<Copy>, id: BackingId, v: Backing)
    requires !Owed(copies, id)
    ensures SettledMap(backings[id := v], copies) == SettledMap(backings, copies)[id := v]
  {
  }

  /** Copying a page before settling or after differs at most in what the new storage holds. */
  lemma DetachedAlmostSettles(m: Memory, copies: seq<Copy>, p: nat, cell: Fresh)
    requires CopiesLive(m, copies) && Backed(m, p) && IsInternal(m, BackingOf(m, p)) && cell.id !in m.backings
    ensures var y, z := Settled(Detached(m, p, cell), copies), Detached(Settled(m, copies), p, cell);
            && z == y.(backings := z.backings) && z.backings.Keys == y.backings.Keys
            && (forall b :: b in y.backings && b != cell.id ==> z.backings[b] == y.backings[b])
            && IsInternal(y, cell.id) && IsInternal(z, cell.id)
            && z.backings[cell.id].refs == y.backings[cell.id].refs
            && Backed(y, p) && BackingOf(y, p) == cell.id
  {
    hide SettledMap, SettledBacking, DropOption;
    assert !Owed(copies, cell.id);
    SettledSameShape(m, copies);
    DetachedShape(m, p, cell);
    DetachedShape(Settled(m, copies), p, cell);
    var v := Backing(m.backings[BackingOf(m, p)].data, 1, cell.generation);
    var w := Backing(Settled(m, copies).backings[BackingOf(m, p)].data, 1, cell.generation);
    SettledDrop(m.backings[cell.id := v], copies, m.pages[p].backing);
    SettledWith(m.backings, copies, cell.id, v);
    DropApart(SettledMap(m.backings, copies), cell.id, v, w, m.pages[p].backing);
  }

  /** Publishing an owned page with its bytes still owed, settled, is publishing it with those bytes. */
  lemma PublishOwedSettles(
    m: Memory, copies: seq<Copy>, p: nat, copy: Option<Fresh>, bytes: PageBytes, c: Copy)
    requires CopiesLive(m, copies) && Enabled(m, Publish(p, copy, bytes)) && IsInternal(m, BackingOf(m, p))
    requires c.backing == if copy.Some? then copy.value.id else BackingOf(m, p)
    ensures Settled(Apply(m, Publish(p, copy, bytes)), copies + [c]) == Apply(Settled(m, copies), Publish(p, copy, c.data))
  {
    hide Settled, StoreThrough, Detached;
    SettledSameShape(m, copies);
    SameShapeEnabled(m, Settled(m, copies), Publish(p, copy, c.data));
    var x, z := Prepared(m, p, copy), Prepared(Settled(m, copies), p, copy);
    if copy.Some? {
      DetachedShape(m, p, copy.value);
      DetachedAlmostSettles(m, copies, p, copy.value);
      OwedStoreSettles(x, copies, p, bytes, c);
      StoreHides(Settled(x, copies), z, p, c.data);
    } else {
      OwedStoreSettles(x, copies, p, bytes, c);
      ProtectionSettles(m, copies, p, Promoted(m.pages[p].protection));
    }
  }

  lemma ProtectionSettles(m: Memory, copies: seq<Copy>, p: nat, protection: Protection)
    requires p in m.pages
    ensures Settled(WithProtection(m, p, protection), copies) == WithProtection(Settled(m, copies), p, protection)
  {
  }

  /** A caller-owned page is written while the metadata lock is held: nothing is owed for it. */
  lemma PublishExternalSettles(m: Memory, copies: seq<Copy>, p: nat, bytes: PageBytes)
    requires CopiesLive(m, copies) && Enabled(m, Publish(p, None, bytes)) && !IsInternal(m, BackingOf(m, p))
    ensures Settled(Apply(m, Publish(p, None, bytes)), copies) == Apply(Settled(m, copies), Publish(p, None, bytes))
  {
    hide Settled, StoreThrough;
    SettledSameShape(m, copies);
    SameShapeEnabled(m, Settled(m, copies), Publish(p, None, bytes));
    ProtectionSettles(m, copies, p, Promoted(m.pages[p].protection));
    SettledStore(Prepared(m, p, None), copies, p, bytes);
  }

  // ---- Owed storage stays alive ----

  /** Each copy's storage is owned, and kept alive by the commit that owes the copy. */
  ghost predicate Pinned(m: Memory, copies: seq<Copy>) {
    forall i :: 0 <= i < |copies| ==>
      && copies[i].owner in m.transactions
      && copies[i].backing in m.transactions[copies[i].owner].inFlight
      && IsInternal(m, copies[i].backing)
  }

  lemma PinnedLive(m: Memory, copies: seq<Copy>)
    requires Pinned(m, copies)
    ensures CopiesLive(m, copies)
  {
  }

  /** Owned storage never becomes caller-owned, nor the other way round. */
  lemma KindKept(m: Memory, e: Edit)
    ensures forall b :: b in m.backings && b in Apply(m, e).backings ==>
              (Apply(m, e).backings[b].data.External? <==> m.backings[b].data.External?)
  {
    if e.Publish? && Enabled(m, e) {
      hide StoreThrough, Prepared;
      PreparedReadable(m, e.page, e.copy);
      PreparedFrame(m, e.page, e.copy);
      StoreKind(Prepared(m, e.page, e.copy), e.page, e.content);
    } else if e.Store? && Enabled(m, e) {
      hide StoreThrough;
      StoreKind(m, e.page, Overwrite(Contents(m, BackingOf(m, e.page)), e.offset, e.bytes));
    } else if e.Detach? || e.Commit? || e.Replace? || e.Share? {
      CellKindKept(m, e);
    } else if Enabled(m, e) {
      OtherKindKept(m, e);
    }
  }

  lemma CellKindKept(m: Memory, e: Edit)
    requires e.Detach? || e.Commit? || e.Replace? || e.Share?
    ensures forall b :: b in m.backings && b in Apply(m, e).backings ==>
              (Apply(m, e).backings[b].data.External? <==> m.backings[b].data.External?)
  {
  }

  lemma OtherKindKept(m: Memory, e: Edit)
    requires Enabled(m, e) && !e.Publish? && !e.Store? && !e.Detach? && !e.Commit? && !e.Replace? && !e.Share?
    ensures forall b :: b in m.backings && b in Apply(m, e).backings ==>
              (Apply(m, e).backings[b].data.External? <==> m.backings[b].data.External?)
  {
  }

  lemma StoreKind(m: Memory, p: nat, bytes: PageBytes)
    requires Backed(m, p) && ReadableBacking(m, BackingOf(m, p))
    ensures StoreThrough(m, p, bytes).backings.Keys == m.backings.Keys
    ensures forall b :: b in m.backings ==>
              (StoreThrough(m, p, bytes).backings[b].data.External? <==> m.backings[b].data.External?)
  {
  }

  lemma HoldsKept(m: Memory, e: Edit, t: TransactionId, b: BackingId)
    requires t in m.transactions && b in m.transactions[t].inFlight && e != LetGo(t)
    ensures t in Apply(m, e).transactions && b in Apply(m, e).transactions[t].inFlight
  {
    if e.Publish? && Enabled(m, e) {
      hide StoreThrough, Prepared;
      PublishTransactions(m, e.page, e.copy, e.content);
    }
  }

  lemma PublishTransactions(m: Memory, p: nat, copy: Option<Fresh>, bytes: PageBytes)
    requires Enabled(m, Publish(p, copy, bytes))
    ensures PublishPage(m, p, copy, bytes).transactions == m.transactions
  {
  }

  lemma HeldAlive(m: Memory, t: TransactionId, b: BackingId)
    requires Inv(m) && t in m.transactions && b in m.transactions[t].inFlight
    ensures b in m.backings
  {
    var i: nat :| i < |m.transactions[t].inFlight| && m.transactions[t].inFlight[i] == b;
    HolderAlive(m, CommitRef(t, i));
  }

  /** No edit frees storage that a copy is owed to, unless the owing commit lets go of it. */
  lemma PinnedKept(m: Memory, copies: seq<Copy>, e: Edit)
    requires Inv(m) && Pinned(m, copies)
    requires forall i :: 0 <= i < |copies| ==> e != LetGo(copies[i].owner)
    ensures Inv(Apply(m, e)) && Pinned(Apply(m, e), copies)
  {
    hide Inv, Apply;
    InvPreserved(m, e);
    KindKept(m, e);
    forall i | 0 <= i < |copies|
      ensures copies[i].owner in Apply(m, e).transactions
      ensures copies[i].backing in Apply(m, e).transactions[copies[i].owner].inFlight
      ensures IsInternal(Apply(m, e), copies[i].backing)
    {
      HoldsKept(m, e, copies[i].owner, copies[i].backing);
      HeldAlive(Apply(m, e), copies[i].owner, copies[i].backing);
    }
  }
}

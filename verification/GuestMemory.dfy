/** A failure-free optional value, used where the source has a null pointer. */
module Options {
  datatype Option<+T> = None | Some(value: T)
}

/**
 The state of one `gem_memory` object and the single-page edits its functions are made of.

 Pages are named by page number (address / 4096), backings by the value of their pointer, and
 transactions by the value of their handle.  A backing pointer may be handed out again once its
 backing is freed: nothing here keeps old identifiers reserved.

 Every public function changes the state by a sequence of `Edit`s; what one edit does to the page
 record, the backing record, the reference count and the generation counter is `Apply`.
 */
module GuestMemory {
  import opened Options

  const PAGE_SIZE := 4096
  const UINT64_MAX := 0xFFFF_FFFF_FFFF_FFFF

  const NO_ACCESS := 0x01
  const READ_ONLY := 0x02
  const READ_WRITE := 0x04
  const WRITE_COPY := 0x08
  const EXECUTE := 0x10
  const EXECUTE_READ := 0x20
  const EXECUTE_READ_WRITE := 0x40
  const EXECUTE_WRITE_COPY := 0x80

  type Byte = b: int | 0 <= b < 256
  type PageBytes = s: seq<Byte> | |s| == PAGE_SIZE witness seq(PAGE_SIZE, _ => 0)
  type BackingId = nat
  type TransactionId = nat

  datatype Error =
    | Ok | InvalidArgument | Overflow | NoMemory | Conflict
    | NotReserved | NotCommitted | AccessDenied | GuardPage

  /** A 32-bit protection word split into its low bits and the one-shot guard bit 0x100. */
  datatype Protection = Protection(access: nat, guard: bool)

  /** Page content: owned storage, or a caller-owned host page found at a host pointer. */
  datatype Data = Internal(bytes: PageBytes) | External(host: nat)

  datatype Backing = Backing(data: Data, refs: nat, generation: nat)

  datatype Page = Page(base: nat, size: nat, backing: Option<BackingId>, protection: Protection, generation: nat)

  datatype Dependency = Dependency(
    page: nat, generation: nat, contentGeneration: nat, contentHash: nat,
    backing: BackingId, protection: Protection, external: bool)

  datatype Transaction = Transaction(dependencies: seq<Dependency>, inFlight: seq<BackingId>)

  datatype Memory = Memory(
    pages: map<nat, Page>,
    backings: map<BackingId, Backing>,
    host: map<nat, PageBytes>,
    generation: nat,
    transactions: map<TransactionId, Transaction>)

  /** What the allocator answers: a pointer, and whatever the generation field then holds. */
  datatype Fresh = Fresh(id: BackingId, generation: nat)

  predicate ProtectionOk(p: Protection) {
    && (p.guard ==> p.access != NO_ACCESS)
    && p.access in {NO_ACCESS, READ_ONLY, READ_WRITE, WRITE_COPY,
                    EXECUTE, EXECUTE_READ, EXECUTE_READ_WRITE, EXECUTE_WRITE_COPY}
  }

  predicate IsWriteCopy(p: Protection) {
    p.access == WRITE_COPY || p.access == EXECUTE_WRITE_COPY
  }

  /** The protection a write-copy page gets when it stops being copied. */
  function Promoted(p: Protection): Protection {
    Protection(if p.access == WRITE_COPY then READ_WRITE else EXECUTE_READ_WRITE, false)
  }

  predicate Allowed(p: Protection, write: bool, execute: bool) {
    if execute then p.access in {EXECUTE, EXECUTE_READ, EXECUTE_READ_WRITE, EXECUTE_WRITE_COPY}
    else if write then p.access in {READ_WRITE, WRITE_COPY, EXECUTE_READ_WRITE, EXECUTE_WRITE_COPY}
    else p.access != NO_ACCESS && p.access != EXECUTE
  }

  predicate Backed(m: Memory, p: nat) {
    p in m.pages && m.pages[p].backing.Some? && m.pages[p].backing.value in m.backings
  }

  function BackingOf(m: Memory, p: nat): BackingId
    requires Backed(m, p)
  {
    m.pages[p].backing.value
  }

  predicate IsInternal(m: Memory, b: BackingId) {
    b in m.backings && m.backings[b].data.Internal?
  }

  predicate ReadableBacking(m: Memory, b: BackingId) {
    b in m.backings && (m.backings[b].data.External? ==> m.backings[b].data.host in m.host)
  }

  /** The 4096 bytes a backing stands for. */
  function Contents(m: Memory, b: BackingId): PageBytes
    requires ReadableBacking(m, b)
  {
    match m.backings[b].data
    case Internal(bytes) => bytes
    case External(host) => m.host[host]
  }

  function Overwrite(previous: PageBytes, offset: nat, bytes: seq<Byte>): PageBytes
    requires offset + |bytes| <= PAGE_SIZE
  {
    previous[..offset] + bytes + previous[offset + |bytes|..]
  }

  // ---- Reference counts ----

  /** `drop`: one reference fewer, and the backing is freed with its last reference. */
  function Drop(backings: map<BackingId, Backing>, b: BackingId): map<BackingId, Backing> {
    if b !in backings then backings
    else if backings[b].refs <= 1 then backings - {b}
    else backings[b := backings[b].(refs := backings[b].refs - 1)]
  }

  function DropOption(backings: map<BackingId, Backing>, b: Option<BackingId>): map<BackingId, Backing> {
    if b.None? then backings else Drop(backings, b.value)
  }

  function Retain(backings: map<BackingId, Backing>, b: BackingId): map<BackingId, Backing>
    requires b in backings
  {
    backings[b := backings[b].(refs := backings[b].refs + 1)]
  }

  predicate IsFresh(m: Memory, f: Fresh) {
    f.id !in m.backings && f.generation <= m.generation
  }

  // ---- Edits ----

  datatype Edit =
    | Reserve(page: nat, base: nat, size: nat)
    | Alias(page: nat, base: nat, size: nat, source: nat, protection: Protection)
    | Commit(page: nat, cell: Fresh, data: Data, protection: Protection)
    | Decommit(page: nat)
    | Protect(page: nat, protection: Protection)
    | Rebase(page: nat, base: nat, size: nat)
    | Remove(page: nat)
    | Detach(page: nat, cell: Fresh)
    | PromoteExternal(page: nat)
    | Store(page: nat, offset: nat, bytes: seq<Byte>)
    | Replace(page: nat, cell: Fresh, host: nat)
    | Share(page: nat, source: nat)
    | Publish(page: nat, copy: Option<Fresh>, content: PageBytes)
    | HostStore(host: nat, content: PageBytes)
    | Burn
    | Begin(transaction: TransactionId)
    | Pin(transaction: TransactionId, page: nat, contentHash: nat)
    | Refresh(transaction: TransactionId, index: nat, contentHash: nat)
    | RefreshGuard(transaction: TransactionId, index: nat, contentHash: nat)
    | Unpin(transaction: TransactionId)
    | Hold(transaction: TransactionId, page: nat)
    | LetGo(transaction: TransactionId)
    | End(transaction: TransactionId)

  predicate HasDependency(m: Memory, t: TransactionId, i: nat) {
    t in m.transactions && i < |m.transactions[t].dependencies|
  }

  /** Whether a commit to this page must first copy a shared backing. */
  predicate NeedsCopy(m: Memory, p: nat)
    requires Backed(m, p)
  {
    IsWriteCopy(m.pages[p].protection) && IsInternal(m, BackingOf(m, p))
  }

  predicate Enabled(m: Memory, e: Edit) {
    match e
    case Reserve(p, _, _) => p !in m.pages
    case Alias(p, _, _, source, _) => p !in m.pages && Backed(m, source)
    case Commit(p, cell, data, _) =>
      && p in m.pages
      && (m.pages[p].backing.None? ==>
            IsFresh(m, cell) && (data.External? ==> data.host in m.host))
    case Decommit(p) => p in m.pages
    case Protect(p, _) => p in m.pages
    case Rebase(p, _, _) => p in m.pages
    case Remove(p) => p in m.pages
    case Detach(p, cell) => Backed(m, p) && NeedsCopy(m, p) && IsFresh(m, cell)
    case PromoteExternal(p) =>
      Backed(m, p) && IsWriteCopy(m.pages[p].protection) && m.backings[BackingOf(m, p)].data.External?
    case Store(p, offset, bytes) =>
      Backed(m, p) && ReadableBacking(m, BackingOf(m, p)) && offset + |bytes| <= PAGE_SIZE
    case Replace(p, cell, host) => Backed(m, p) && IsFresh(m, cell) && host in m.host
    case Share(p, source) => Backed(m, p) && Backed(m, source) && p != source
    case Publish(p, copy, _) =>
      && Backed(m, p) && ReadableBacking(m, BackingOf(m, p))
      && (copy.Some? <==> NeedsCopy(m, p))
      && (copy.Some? ==> IsFresh(m, copy.value))
    case HostStore(host, _) => host in m.host
    case Burn => true
    case Begin(t) => t !in m.transactions
    case Pin(t, p, _) => t in m.transactions && Backed(m, p)
    case Refresh(t, i, _) =>
      HasDependency(m, t, i) && Backed(m, m.transactions[t].dependencies[i].page)
    case RefreshGuard(t, i, _) =>
      HasDependency(m, t, i) && Backed(m, m.transactions[t].dependencies[i].page)
    case Unpin(t) => t in m.transactions && m.transactions[t].dependencies != []
    case Hold(t, p) => t in m.transactions && Backed(m, p)
    case LetGo(t) => t in m.transactions && m.transactions[t].inFlight != []
    case End(t) => t in m.transactions && m.transactions[t] == Transaction([], [])
  }

  /** `touch_page`. */
  function TouchPage(m: Memory, p: nat): Memory
    requires p in m.pages
  {
    m.(pages := m.pages[p := m.pages[p].(generation := m.generation + 1)], generation := m.generation + 1)
  }

  /** `touch_backing`. */
  function TouchBacking(m: Memory, b: BackingId): Memory
    requires b in m.backings
  {
    m.(backings := m.backings[b := m.backings[b].(generation := m.generation + 1)], generation := m.generation + 1)
  }

  /** Writes bytes through a backing, into owned storage or into the host page it names. */
  function SetBytes(m: Memory, b: BackingId, bytes: PageBytes): Memory
    requires ReadableBacking(m, b)
  {
    match m.backings[b].data
    case Internal(_) => m.(backings := m.backings[b := m.backings[b].(data := Internal(bytes))])
    case External(host) => m.(host := m.host[host := bytes])
  }

  /** Bytes changed, then backing and page touched, in that order. */
  function StoreThrough(m: Memory, p: nat, bytes: PageBytes): Memory
    requires Backed(m, p) && ReadableBacking(m, BackingOf(m, p))
  {
    TouchPage(TouchBacking(SetBytes(m, BackingOf(m, p), bytes), BackingOf(m, p)), p)
  }

  /** Points a page at a different, already retained backing and drops the one it had. */
  function Rehome(m: Memory, p: nat, b: BackingId): Memory
    requires p in m.pages
  {
    m.(pages := m.pages[p := m.pages[p].(backing := Some(b))],
       backings := DropOption(m.backings, m.pages[p].backing))
  }

  function AddBacking(m: Memory, cell: Fresh, data: Data): Memory {
    m.(backings := m.backings[cell.id := Backing(data, 1, cell.generation)])
  }

  /** The copy a write-copy page gets: its own storage with the same bytes, no longer write-copy. */
  function Detached(m: Memory, p: nat, cell: Fresh): Memory
    requires Backed(m, p) && IsInternal(m, BackingOf(m, p))
  {
    var m1 := Rehome(AddBacking(m, cell, m.backings[BackingOf(m, p)].data), p, cell.id);
    m1.(pages := m1.pages[p := m1.pages[p].(protection := Promoted(m1.pages[p].protection))])
  }

  function WithProtection(m: Memory, p: nat, protection: Protection): Memory
    requires p in m.pages
  {
    m.(pages := m.pages[p := m.pages[p].(protection := protection)])
  }

  /** What `publish` does before the bytes are stored: a copy for a write-copy page, or just its promotion. */
  function Prepared(m: Memory, p: nat, copy: Option<Fresh>): Memory
    requires Backed(m, p) && (copy.Some? ==> IsInternal(m, BackingOf(m, p)))
  {
    if copy.Some? then Detached(m, p, copy.value)
    else if IsWriteCopy(m.pages[p].protection) then WithProtection(m, p, Promoted(m.pages[p].protection))
    else m
  }

  function Observe(m: Memory, p: nat, contentHash: nat): Dependency
    requires Backed(m, p)
  {
    var b := BackingOf(m, p);
    Dependency(p, m.pages[p].generation, m.backings[b].generation, contentHash, b,
               m.pages[p].protection, m.backings[b].data.External?)
  }

  function WithDependencies(m: Memory, t: TransactionId, dependencies: seq<Dependency>): Memory
    requires t in m.transactions
  {
    m.(transactions := m.transactions[t := m.transactions[t].(dependencies := dependencies)])
  }

  /** A reserved page: no backing, no protection, a stamp of its own. */
  function ReservePage(m: Memory, p: nat, base: nat, size: nat): Memory {
    m.(pages := m.pages[p := Page(base, size, None, Protection(0, false), m.generation + 1)],
       generation := m.generation + 1)
  }

  function AliasPage(m: Memory, p: nat, base: nat, size: nat, b: BackingId, protection: Protection): Memory
    requires b in m.backings
  {
    m.(pages := m.pages[p := Page(base, size, Some(b), protection, m.generation + 1)],
       backings := Retain(m.backings, b),
       generation := m.generation + 1)
  }

  function CommitPage(m: Memory, p: nat, cell: Fresh, data: Data, protection: Protection): Memory
    requires p in m.pages
  {
    var m1 := if m.pages[p].backing.Some? then m else Rehome(AddBacking(m, cell, data), p, cell.id);
    TouchPage(WithProtection(m1, p, protection), p)
  }

  function DecommitPage(m: Memory, p: nat): Memory
    requires p in m.pages
  {
    TouchPage(
      m.(pages := m.pages[p := m.pages[p].(backing := None, protection := Protection(NO_ACCESS, false))],
         backings := DropOption(m.backings, m.pages[p].backing)), p)
  }

  function RemovePage(m: Memory, p: nat): Memory
    requires p in m.pages
  {
    m.(pages := m.pages - {p}, backings := DropOption(m.backings, m.pages[p].backing))
  }

  function ReplacePage(m: Memory, p: nat, cell: Fresh, host: nat): Memory
    requires p in m.pages
  {
    TouchPage(Rehome(AddBacking(m, cell, External(host)), p, cell.id), p)
  }

  function SharePage(m: Memory, p: nat, b: BackingId): Memory
    requires p in m.pages && b in m.backings
  {
    TouchPage(Rehome(m.(backings := Retain(m.backings, b)), p, b), p)
  }

  function PublishPage(m: Memory, p: nat, copy: Option<Fresh>, bytes: PageBytes): Memory
    requires Enabled(m, Publish(p, copy, bytes))
  {
    StoreThrough(Prepared(m, p, copy), p, bytes)
  }

  function PinPage(m: Memory, t: TransactionId, p: nat, contentHash: nat): Memory
    requires t in m.transactions && Backed(m, p)
  {
    WithDependencies(m.(backings := Retain(m.backings, BackingOf(m, p))), t,
                     m.transactions[t].dependencies + [Observe(m, p, contentHash)])
  }

  /** A transaction's record of a page brought up to date, with its pin moved to the page's backing. */
  function RefreshPin(m: Memory, t: TransactionId, i: nat, contentHash: nat): Memory
    requires HasDependency(m, t, i) && Backed(m, m.transactions[t].dependencies[i].page)
  {
    var prior := m.transactions[t].dependencies[i];
    var now := Observe(m, prior.page, contentHash);
    WithDependencies(m.(backings := Drop(Retain(m.backings, now.backing), prior.backing)), t,
                     m.transactions[t].dependencies[i := now])
  }

  /** After a guard bit was consumed only the stamp, protection and hash are brought up to date. */
  function RefreshGuardPin(m: Memory, t: TransactionId, i: nat, contentHash: nat): Memory
    requires HasDependency(m, t, i) && m.transactions[t].dependencies[i].page in m.pages
  {
    var prior := m.transactions[t].dependencies[i];
    var page := m.pages[prior.page];
    WithDependencies(m, t, m.transactions[t].dependencies[
      i := prior.(generation := page.generation, protection := page.protection, contentHash := contentHash)])
  }

  function UnpinLast(m: Memory, t: TransactionId): Memory
    requires t in m.transactions && m.transactions[t].dependencies != []
  {
    var ds := m.transactions[t].dependencies;
    WithDependencies(m.(backings := Drop(m.backings, ds[|ds| - 1].backing)), t, ds[..|ds| - 1])
  }

  function WithInFlight(m: Memory, t: TransactionId, inFlight: seq<BackingId>): Memory
    requires t in m.transactions
  {
    m.(transactions := m.transactions[t := m.transactions[t].(inFlight := inFlight)])
  }

  /** A commit keeps the backing it is about to copy into alive while the metadata lock is not held. */
  function HoldPage(m: Memory, t: TransactionId, p: nat): Memory
    requires t in m.transactions && Backed(m, p)
  {
    WithInFlight(m.(backings := Retain(m.backings, BackingOf(m, p))), t,
                 m.transactions[t].inFlight + [BackingOf(m, p)])
  }

  function LetGoLast(m: Memory, t: TransactionId): Memory
    requires t in m.transactions && m.transactions[t].inFlight != []
  {
    var held := m.transactions[t].inFlight;
    WithInFlight(m.(backings := Drop(m.backings, held[|held| - 1])), t, held[..|held| - 1])
  }

  /** The effect of one edit on a state that allows it. */
  function Do(m: Memory, e: Edit): Memory
    requires Enabled(m, e)
  {
    match e
    case Reserve(p, base, size) => ReservePage(m, p, base, size)
    case Alias(p, base, size, source, protection) => AliasPage(m, p, base, size, BackingOf(m, source), protection)
    case Commit(p, cell, data, protection) => CommitPage(m, p, cell, data, protection)
    case Decommit(p) => DecommitPage(m, p)
    case Protect(p, protection) => TouchPage(WithProtection(m, p, protection), p)
    case Rebase(p, base, size) => m.(pages := m.pages[p := m.pages[p].(base := base, size := size)])
    case Remove(p) => RemovePage(m, p)
    case Detach(p, cell) => TouchPage(Detached(m, p, cell), p)
    case PromoteExternal(p) => WithProtection(m, p, Promoted(m.pages[p].protection))
    case Store(p, offset, bytes) =>
      StoreThrough(m, p, Overwrite(Contents(m, BackingOf(m, p)), offset, bytes))
    case Replace(p, cell, host) => ReplacePage(m, p, cell, host)
    case Share(p, source) => SharePage(m, p, BackingOf(m, source))
    case Publish(p, copy, bytes) => PublishPage(m, p, copy, bytes)
    case HostStore(host, bytes) => m.(host := m.host[host := bytes])
    case Burn => m.(generation := m.generation + 1)
    case Begin(t) => m.(transactions := m.transactions[t := Transaction([], [])])
    case Pin(t, p, contentHash) => PinPage(m, t, p, contentHash)
    case Refresh(t, i, contentHash) => RefreshPin(m, t, i, contentHash)
    case RefreshGuard(t, i, contentHash) => RefreshGuardPin(m, t, i, contentHash)
    case Unpin(t) => UnpinLast(m, t)
    case Hold(t, p) => HoldPage(m, t, p)
    case LetGo(t) => LetGoLast(m, t)
    case End(t) => m.(transactions := m.transactions - {t})
  }

  function Apply(m: Memory, e: Edit): Memory {
    if Enabled(m, e) then Do(m, e) else m
  }

  function Run(m: Memory, edits: seq<Edit>): Memory
    decreases |edits|
  {
    if edits == [] then m else Run(Apply(m, edits[0]), edits[1..])
  }

  lemma {:induction false} RunAppend(m: Memory, first: seq<Edit>, second: seq<Edit>)
    ensures Run(m, first + second) == Run(Run(m, first), second)
    decreases |first|
  {
    if first == [] {
      assert first + second == second;
    } else {
      assert (first + second)[0] == first[0];
      assert (first + second)[1..] == first[1..] + second;
      RunAppend(Apply(m, first[0]), first[1..], second);
    }
  }
}

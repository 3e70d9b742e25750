/**
 The lock lists of the memory object and why its callers cannot deadlock.

 Stripe lists are built in place, kept strictly ascending, and never outgrow the 256 stripes there are.
 Every caller takes the metadata lock before stripes and stripes in ascending order; a commit gives
 its stripes back before it takes the metadata lock again.
 */
module StripeLocks {
  import opened Options
  import opened GuestMemory
  import opened MappingCalls
  import opened CommitProtocol

  // ---- Stripe lists ----

  predicate Ascending(s: seq<nat>) {
    forall i, j :: 0 <= i < j < |s| ==> s[i] < s[j]
  }

  function Elements(s: seq<nat>): set<nat> {
    set i | 0 <= i < |s| :: s[i]
  }

  ghost predicate StripeList(s: seq<nat>) {
    Ascending(s) && forall i :: 0 <= i < |s| ==> s[i] < STRIPES
  }

  lemma {:induction false} AscendingFloor(s: seq<nat>, i: nat)
    requires Ascending(s) && i < |s|
    ensures s[i] >= i
    decreases i
  {
    if i > 0 {
      AscendingFloor(s, i - 1);
    }
  }

  /** A list of stripes is never longer than there are stripes. */
  lemma ListFits(s: seq<nat>)
    requires StripeList(s)
    ensures |s| <= STRIPES
  {
    if s != [] {
      AscendingFloor(s, |s| - 1);
    }
  }

  lemma {:induction false} AscendingCeiling(s: seq<nat>, i: nat)
    requires StripeList(s) && i < |s|
    ensures s[i] + (|s| - 1 - i) < STRIPES
    decreases |s| - i
  {
    if i + 1 < |s| {
      AscendingCeiling(s, i + 1);
    }
  }

  /** A full list has every stripe, so a stripe that is missing finds room. */
  lemma RoomForMissing(s: seq<nat>, stripe: nat)
    requires StripeList(s) && stripe < STRIPES && stripe !in Elements(s)
    ensures |s| < STRIPES
  {
    ListFits(s);
    if |s| == STRIPES {
      AscendingFloor(s, stripe);
      AscendingCeiling(s, stripe);
    }
  }

  lemma InsertedList(s: seq<nat>, i: nat, stripe: nat)
    requires StripeList(s) && i <= |s| && stripe < STRIPES
    requires forall j :: 0 <= j < i ==> s[j] < stripe
    requires i < |s| ==> stripe < s[i]
    ensures StripeList(s[..i] + [stripe] + s[i..])
    ensures Elements(s[..i] + [stripe] + s[i..]) == Elements(s) + {stripe}
    ensures stripe !in Elements(s)
  {
    var r := s[..i] + [stripe] + s[i..];
    forall x | x in Elements(s) + {stripe} ensures x in Elements(r) {
      if x == stripe {
        assert r[i] == stripe;
      } else {
        var k :| 0 <= k < |s| && s[k] == x;
        assert r[if k < i then k else k + 1] == x;
      }
    }
  }

  /** The elements `i .. count` one place up. */
  method ShiftUp(a: array<nat>, i: nat, count: nat)
    requires i <= count < a.Length
    modifies a
    ensures a[..i] == old(a[..i]) && a[i + 1..count + 1] == old(a[i..count])
  {
    var k := count;
    while k > i
      invariant i <= k <= count
      invariant a[..k] == old(a[..k])
      invariant a[k + 1..count + 1] == old(a[k..count])
    {
      a[k] := a[k - 1];
      k := k - 1;
    }
  }

  /** An element put in at place `i`, the rest moved up. */
  method InsertAt(a: array<nat>, i: nat, count: nat, x: nat)
    requires i <= count < a.Length
    modifies a
    ensures a[..count + 1] == old(a[..i]) + [x] + old(a[i..count])
  {
    ShiftUp(a, i, count);
    a[i] := x;
    assert a[i + 1..count + 1] == old(a[i..count]);
    Assembled(a[..count + 1], i, x);
    assert a[..count + 1][..i] == a[..i] && a[..count + 1][i + 1..] == a[i + 1..count + 1];
  }

  /** `insert_stripe`: the list with one more stripe, unless it is there already. */
  method InsertStripe(stripes: array<nat>, count: nat, stripe: nat) returns (total: nat)
    requires stripes.Length == STRIPES && count <= STRIPES && StripeList(stripes[..count]) && stripe < STRIPES
    modifies stripes
    ensures total <= STRIPES && StripeList(stripes[..total])
    ensures Elements(stripes[..total]) == Elements(old(stripes[..count])) + {stripe}
  {
    hide StripeList;
    var i := 0;
    while i < count && stripes[i] < stripe
      invariant i <= count
      invariant forall j :: 0 <= j < i ==> stripes[j] < stripe
    {
      i := i + 1;
    }
    ghost var before := stripes[..count];
    if i < count && stripes[i] == stripe {
      assert before[i] == stripe;
      return count;
    }
    InsertedList(before, i, stripe);
    RoomForMissing(before, stripe);
    assert before[..i] == stripes[..i] && before[i..] == stripes[i..count];
    InsertAt(stripes, i, count, stripe);
    total := count + 1;
  }

  lemma Assembled(s: seq<nat>, i: nat, stripe: nat)
    requires i < |s| && s[i] == stripe
    ensures s == s[..i] + [stripe] + s[i + 1..]
  {
  }

  /** `page_stripes`. */
  method InsertPageStripes(p: nat, backing: Option<BackingId>, stripes: array<nat>, count: nat) returns (total: nat)
    requires stripes.Length == STRIPES && count <= STRIPES && StripeList(stripes[..count])
    modifies stripes
    ensures total <= STRIPES && StripeList(stripes[..total])
    ensures Elements(stripes[..total]) == Elements(old(stripes[..count])) + PageStripes(p, backing)
  {
    total := InsertStripe(stripes, count, AddressStripe(p));
    if backing.Some? {
      total := InsertStripe(stripes, total, BackingStripe(backing.value));
    }
  }

  lemma {:induction false} DependencyStripesAppend(ds: seq<Dependency>, d: Dependency)
    ensures DependencyStripes(ds + [d]) == DependencyStripes(ds) + PageStripes(d.page, Some(d.backing))
    decreases |ds|
  {
    if ds == [] {
      assert DependencyStripes([]) == {} && ([] + [d])[1..] == [];
    } else {
      assert (ds + [d])[0] == ds[0] && (ds + [d])[1..] == ds[1..] + [d];
      DependencyStripesAppend(ds[1..], d);
    }
  }

  /** The stripes of a recorded page: its page number's, and that of the backing's 64-byte line. */
  ghost predicate StripeOf(d: Dependency, x: nat) {
    x == d.page % 256 || x == d.backing / 64 % 256
  }

  lemma {:induction false} DependencyStripesAre(ds: seq<Dependency>)
    ensures forall x: nat :: x in DependencyStripes(ds) <==> exists i :: 0 <= i < |ds| && StripeOf(ds[i], x)
    decreases |ds|
  {
    if ds != [] {
      DependencyStripesAre(ds[1..]);
      forall x: nat, i | 0 <= i < |ds| && StripeOf(ds[i], x) ensures x in DependencyStripes(ds) {
        if i > 0 {
          assert StripeOf(ds[1..][i - 1], x);
        }
      }
      forall x: nat | x in DependencyStripes(ds) ensures exists i :: 0 <= i < |ds| && StripeOf(ds[i], x) {
        if x in DependencyStripes(ds[1..]) {
          var i :| 0 <= i < |ds[1..]| && StripeOf(ds[1..][i], x);
          assert StripeOf(ds[i + 1], x);
        } else {
          assert StripeOf(ds[0], x);
        }
      }
    }
  }

  /** `dependency_stripes`: exactly the stripes of the recorded pages and of their backings. */
  method ListDependencyStripes(ds: seq<Dependency>, stripes: array<nat>) returns (count: nat)
    requires stripes.Length == STRIPES
    modifies stripes
    ensures count <= STRIPES && StripeList(stripes[..count])
    ensures Elements(stripes[..count]) == DependencyStripes(ds)
    ensures forall x: nat :: x in stripes[..count] <==> exists i :: 0 <= i < |ds| && StripeOf(ds[i], x)
  {
    DependencyStripesAre(ds);
    count := 0;
    for i := 0 to |ds|
      invariant count <= STRIPES && StripeList(stripes[..count])
      invariant Elements(stripes[..count]) == DependencyStripes(ds[..i])
    {
      assert ds[..i + 1] == ds[..i] + [ds[i]];
      DependencyStripesAppend(ds[..i], ds[i]);
      count := InsertPageStripes(ds[i].page, Some(ds[i].backing), stripes, count);
    }
    assert ds[..|ds|] == ds;
    ListedOnce(stripes[..count]);
  }

  lemma ListedOnce(s: seq<nat>)
    ensures forall x: nat :: x in s <==> x in Elements(s)
  {
  }

  // ---- Ranges ----

  /** The stripes of a page: its number's, and that of the line its backing starts on. */
  ghost predicate PageStripe(m: Memory, p: nat, x: nat) {
    x == p % 256 || (p in m.pages && m.pages[p].backing.Some? && x == m.pages[p].backing.value / 64 % 256)
  }

  /** The stripes a call takes for a range: all for 256 pages or more, else those of its pages; none if it is empty or wraps. */
  ghost predicate RangeStripe(m: Memory, a: nat, n: nat, x: nat) {
    && n > 0 && a + n - 1 <= 0xFFFF_FFFF_FFFF_FFFF && x < 256
    && ((a + n - 1) / 4096 - a / 4096 + 1 >= 256 || exists p: nat :: a / 4096 <= p <= (a + n - 1) / 4096 && PageStripe(m, p, x))
  }

  lemma {:induction false} SpanStripesAre(m: Memory, first: nat, count: nat)
    ensures forall x: nat :: x in SpanStripes(m, first, count) <==> exists p: nat :: first <= p < first + count && PageStripe(m, p, x)
    decreases count
  {
    if count > 0 {
      SpanStripesAre(m, first + 1, count - 1);
      assert forall x: nat :: x in MappedStripes(m, first) <==> PageStripe(m, first, x);
    }
  }

  lemma RangeStripesAre(m: Memory, a: nat, n: nat)
    ensures forall x: nat :: x in RangeStripes(m, a, n) <==> RangeStripe(m, a, n, x)
  {
    if n > 0 {
      SpanStripesAre(m, a / PAGE_SIZE, (a + n - 1) / PAGE_SIZE - a / PAGE_SIZE + 1);
    }
  }

  ghost predicate Marks(locked: seq<bool>, s: set<nat>) {
    |locked| == STRIPES && forall i :: 0 <= i < STRIPES ==> (locked[i] <==> i in s)
  }

  lemma {:induction false} SpanSnoc(m: Memory, first: nat, count: nat)
    ensures SpanStripes(m, first, count + 1) == SpanStripes(m, first, count) + MappedStripes(m, first + count)
    decreases count
  {
    if count == 0 {
      assert SpanStripes(m, first, 0) == {} && SpanStripes(m, first + 1, 0) == {};
    } else {
      SpanSnoc(m, first + 1, count - 1);
    }
  }

  lemma {:induction false} SpanWithinAll(m: Memory, first: nat, count: nat)
    ensures SpanStripes(m, first, count) <= AllStripes()
    decreases count
  {
    if count > 0 {
      SpanWithinAll(m, first + 1, count - 1);
    }
  }

  method MarkPage(m: Memory, p: nat, locked: array<bool>, ghost marked: set<nat>)
    requires Marks(locked[..], marked)
    modifies locked
    ensures Marks(locked[..], marked + MappedStripes(m, p))
  {
    locked[AddressStripe(p)] := true;
    if p in m.pages && m.pages[p].backing.Some? {
      locked[BackingStripe(m.pages[p].backing.value)] := true;
    }
  }

  method FillMarks(locked: array<bool>, value: bool)
    requires locked.Length == STRIPES
    modifies locked
    ensures forall j :: 0 <= j < STRIPES ==> locked[j] == value
  {
    for i := 0 to STRIPES
      invariant forall j :: 0 <= j < i ==> locked[j] == value
    {
      locked[i] := value;
    }
  }

  /** The marking part of `range_stripes_acquire`: a long range takes all stripes and looks at one page only. */
  method MarkRange(m: Memory, a: nat, n: nat, locked: array<bool>)
    requires locked.Length == STRIPES
    modifies locked
    ensures Marks(locked[..], RangeStripes(m, a, n))
    ensures forall x: nat :: x < 256 ==> locked[x] == RangeStripe(m, a, n, x)
  {
    hide MappedStripes, SpanStripes, RangeStripe;
    RangeStripesAre(m, a, n);
    FillMarks(locked, false);
    SpanEmpty(m);
    if n == 0 || a + (n - 1) > UINT64_MAX {
      return;
    }
    var first, last := a / PAGE_SIZE, (a + n - 1) / PAGE_SIZE;
    var p := first;
    ghost var marked: set<nat> := {};
    if last - first + 1 >= STRIPES {
      FillMarks(locked, true);
      p := last;
      marked := AllStripes();
      AllAreMarked(locked[..]);
    }
    ghost var start, base := p, marked;
    while true
      invariant first <= start <= p <= last
      invariant Marks(locked[..], base + SpanStripes(m, start, p - start))
      decreases last - p
    {
      MarkPage(m, p, locked, base + SpanStripes(m, start, p - start));
      SpanSnoc(m, start, p - start);
      assert base + SpanStripes(m, start, p - start) + MappedStripes(m, p) == base + SpanStripes(m, start, p - start + 1);
      if p == last {
        break;
      }
      p := p + 1;
    }
    SpanWithinAll(m, start, last - start + 1);
  }

  lemma SpanEmpty(m: Memory)
    ensures forall p: nat :: SpanStripes(m, p, 0) == {}
  {
  }

  lemma AllAreMarked(locked: seq<bool>)
    requires |locked| == STRIPES && forall i :: 0 <= i < STRIPES ==> locked[i]
    ensures Marks(locked, AllStripes())
  {
    forall i | 0 <= i < STRIPES ensures i in AllStripes() {
      assert AddressStripe(i) == i;
    }
  }

  // ---- Deadlock ----

  /** Lock 0 is the metadata lock, lock `i + 1` is stripe `i`. */
  const METADATA := 0

  datatype Op = Acquire(lock: nat, exclusive: bool) | Release(lock: nat)

  /** A call in progress: the locks it holds, each exclusively or shared, and what it still does with locks. */
  datatype Caller = Caller(held: map<nat, bool>, todo: seq<Op>)

  ghost predicate AllBelow(held: map<nat, bool>, l: nat) {
    forall h :: h in held ==> h < l
  }

  /** Locks are taken in ascending order only, released when held, and none is left at the end. */
  ghost predicate Disciplined(held: map<nat, bool>, todo: seq<Op>)
    decreases |todo|
  {
    if todo == [] then held == map[]
    else if todo[0].Acquire? then
      AllBelow(held, todo[0].lock) && Disciplined(held[todo[0].lock := todo[0].exclusive], todo[1..])
    else
      todo[0].lock in held && Disciplined(held - {todo[0].lock}, todo[1..])
  }

  /** What one caller holds exclusively another does not hold at all. */
  ghost predicate Apart(held: map<nat, bool>, other: map<nat, bool>) {
    forall l :: l in held && held[l] ==> l !in other
  }

  /** Every caller follows the discipline, and no lock held exclusively is held by another. */
  ghost predicate Sane(callers: seq<Caller>) {
    && (forall i :: 0 <= i < |callers| ==> Disciplined(callers[i].held, callers[i].todo))
    && (forall i, j :: 0 <= i < |callers| && 0 <= j < |callers| && i != j ==> Apart(callers[i].held, callers[j].held))
  }

  predicate Wants(c: Caller, l: nat, exclusive: bool) {
    c.todo != [] && c.todo[0] == Acquire(l, exclusive)
  }

  /**
   A writer waits for every holder.  A reader waits for a writer that holds the lock and, since writers
   go first, also for one that waits for it.
   */
  ghost predicate Available(callers: seq<Caller>, i: nat, l: nat, exclusive: bool) {
    forall j :: 0 <= j < |callers| && j != i ==>
      && (l in callers[j].held ==> !exclusive && !callers[j].held[l])
      && (!exclusive ==> !Wants(callers[j], l, true))
  }

  ghost predicate CanMove(callers: seq<Caller>, i: nat) {
    && i < |callers| && callers[i].todo != []
    && (callers[i].todo[0].Acquire? ==> Available(callers, i, callers[i].todo[0].lock, callers[i].todo[0].exclusive))
  }

  function Moved(c: Caller): Caller
    requires c.todo != []
  {
    match c.todo[0]
    case Acquire(l, exclusive) => Caller(c.held[l := exclusive], c.todo[1..])
    case Release(l) => Caller(c.held - {l}, c.todo[1..])
  }

  lemma MovingStaysSane(callers: seq<Caller>, i: nat)
    requires Sane(callers) && CanMove(callers, i)
    ensures Sane(callers[i := Moved(callers[i])])
  {
    var next := callers[i := Moved(callers[i])];
    assert Disciplined(callers[i].held, callers[i].todo);
    forall j, k | 0 <= j < |next| && 0 <= k < |next| && j != k ensures Apart(next[j].held, next[k].held) {
      assert Apart(callers[j].held, callers[k].held) && Apart(callers[k].held, callers[j].held);
    }
  }

  ghost predicate Unfinished(callers: seq<Caller>, i: nat) {
    i < |callers| && callers[i].todo != []
  }

  /** The caller that waits for the highest lock, a writer if there is one. */
  ghost predicate Highest(callers: seq<Caller>, i: nat, n: nat)
    requires n <= |callers|
  {
    && i < n && Unfinished(callers, i) && callers[i].todo[0].Acquire?
    && forall j :: 0 <= j < n && Unfinished(callers, j) && callers[j].todo[0].Acquire? ==>
         || callers[j].todo[0].lock < callers[i].todo[0].lock
         || (callers[j].todo[0].lock == callers[i].todo[0].lock
             && (callers[j].todo[0].exclusive ==> callers[i].todo[0].exclusive))
  }

  lemma {:induction false} HighestExists(callers: seq<Caller>, n: nat) returns (i: nat)
    requires n <= |callers|
    requires exists j :: 0 <= j < n && Unfinished(callers, j) && callers[j].todo[0].Acquire?
    ensures Highest(callers, i, n)
    decreases n
  {
    var last := n - 1;
    if exists j :: 0 <= j < last && Unfinished(callers, j) && callers[j].todo[0].Acquire? {
      i := HighestExists(callers, last);
      if Unfinished(callers, last) && callers[last].todo[0].Acquire? && !Highest(callers, i, n) {
        i := last;
      }
    } else {
      i := last;
    }
  }

  /**
   No deadlock: while any call is unfinished, some call can go on.  The caller that waits for the highest
   lock can only be kept waiting by one that waits for a higher one.
   */
  lemma NoDeadlock(callers: seq<Caller>)
    requires Sane(callers) && exists i: nat :: Unfinished(callers, i)
    ensures exists i: nat :: CanMove(callers, i)
  {
    var u: nat :| Unfinished(callers, u);
    if callers[u].todo[0].Release? {
      assert CanMove(callers, u);
    } else {
      var i := HighestExists(callers, |callers|);
      var l := callers[i].todo[0].lock;
      if !CanMove(callers, i) {
        var j :| 0 <= j < |callers| && j != i && !(
          && (l in callers[j].held ==> !callers[i].todo[0].exclusive && !callers[j].held[l])
          && (!callers[i].todo[0].exclusive ==> !Wants(callers[j], l, true)));
        assert Disciplined(callers[j].held, callers[j].todo);
        assert l in callers[j].held;
        assert CanMove(callers, j);
      }
    }
  }

  // ---- What each caller does with locks ----

  function AcquireStripes(stripes: seq<nat>, modes: set<nat>): seq<Op> {
    if stripes == [] then []
    else [Acquire(stripes[0] + 1, stripes[0] in modes)] + AcquireStripes(stripes[1..], modes)
  }

  /** Stripes are released in the opposite order. */
  function ReleaseStripes(stripes: seq<nat>): seq<Op> {
    if stripes == [] then [] else ReleaseStripes(stripes[1..]) + [Release(stripes[0] + 1)]
  }

  /** A call that keeps the metadata lock throughout. */
  function RangeCall(stripes: seq<nat>, modes: set<nat>): seq<Op> {
    [Acquire(METADATA, true)] + AcquireStripes(stripes, modes) + ReleaseStripes(stripes) + [Release(METADATA)]
  }

  /** `commit_pages`: the metadata lock is given up with the stripes still held, and taken again without them. */
  function CommitCall(stripes: seq<nat>, modes: set<nat>): seq<Op> {
    [Acquire(METADATA, true)] + AcquireStripes(stripes, modes) + [Release(METADATA)] + ReleaseStripes(stripes)
    + [Acquire(METADATA, true), Release(METADATA)]
  }

  function HeldWith(held: map<nat, bool>, stripes: seq<nat>, modes: set<nat>): map<nat, bool>
    decreases |stripes|
  {
    if stripes == [] then held else HeldWith(held[stripes[0] + 1 := stripes[0] in modes], stripes[1..], modes)
  }

  ghost predicate Below(held: map<nat, bool>, stripes: seq<nat>) {
    forall h, i :: h in held && 0 <= i < |stripes| ==> h < stripes[i] + 1
  }

  lemma {:induction false} AcquiringIsDisciplined(held: map<nat, bool>, stripes: seq<nat>, modes: set<nat>, rest: seq<Op>)
    requires Ascending(stripes) && Below(held, stripes)
    ensures Disciplined(held, AcquireStripes(stripes, modes) + rest) <==> Disciplined(HeldWith(held, stripes, modes), rest)
    decreases |stripes|
  {
    var ops := AcquireStripes(stripes, modes) + rest;
    if stripes == [] {
      assert ops == rest;
    } else {
      assert ops[1..] == AcquireStripes(stripes[1..], modes) + rest;
      AcquiringIsDisciplined(held[stripes[0] + 1 := stripes[0] in modes], stripes[1..], modes, rest);
    }
  }

  lemma {:induction false} ReleasingIsDisciplined(held: map<nat, bool>, stripes: seq<nat>, modes: set<nat>, rest: seq<Op>)
    requires Ascending(stripes) && Below(held, stripes)
    ensures Disciplined(HeldWith(held, stripes, modes), ReleaseStripes(stripes) + rest) <==> Disciplined(held, rest)
    decreases |stripes|
  {
    var ops := ReleaseStripes(stripes) + rest;
    if stripes == [] {
      assert ops == rest;
    } else {
      var l := stripes[0] + 1;
      assert ops == ReleaseStripes(stripes[1..]) + ([Release(l)] + rest);
      ReleasingIsDisciplined(held[l := stripes[0] in modes], stripes[1..], modes, [Release(l)] + rest);
      assert l !in held;
      assert held[l := stripes[0] in modes] - {l} == held;
      assert ([Release(l)] + rest)[1..] == rest;
    }
  }

  lemma {:induction false} WithoutMetadata(held: map<nat, bool>, stripes: seq<nat>, modes: set<nat>)
    ensures HeldWith(held, stripes, modes) - {METADATA} == HeldWith(held - {METADATA}, stripes, modes)
    ensures METADATA in held ==> METADATA in HeldWith(held, stripes, modes)
    decreases |stripes|
  {
    if stripes != [] {
      var l, e := stripes[0] + 1, stripes[0] in modes;
      WithoutMetadata(held[l := e], stripes[1..], modes);
      assert held[l := e] - {METADATA} == (held - {METADATA})[l := e];
    }
  }

  lemma OneOp(held: map<nat, bool>, op: Op, rest: seq<Op>)
    ensures Disciplined(held, [op] + rest) <==>
              if op.Acquire? then AllBelow(held, op.lock) && Disciplined(held[op.lock := op.exclusive], rest)
              else op.lock in held && Disciplined(held - {op.lock}, rest)
  {
    assert ([op] + rest)[1..] == rest;
  }

  lemma RangeCallDisciplined(stripes: seq<nat>, modes: set<nat>)
    requires StripeList(stripes)
    ensures Disciplined(map[], RangeCall(stripes, modes))
  {
    hide Disciplined;
    var held: map<nat, bool> := map[METADATA := true];
    var back := ReleaseStripes(stripes) + [Release(METADATA)];
    assert RangeCall(stripes, modes) == [Acquire(METADATA, true)] + (AcquireStripes(stripes, modes) + back);
    OneOp(map[], Acquire(METADATA, true), AcquireStripes(stripes, modes) + back);
    AcquiringIsDisciplined(held, stripes, modes, back);
    ReleasingIsDisciplined(held, stripes, modes, [Release(METADATA)]);
    assert [Release(METADATA)] == [Release(METADATA)] + [];
    OneOp(held, Release(METADATA), []);
    assert held - {METADATA} == map[];
    Done();
  }

  lemma Done()
    ensures Disciplined(map[], [])
  {
  }

  lemma CommitCallDisciplined(stripes: seq<nat>, modes: set<nat>)
    requires StripeList(stripes)
    ensures Disciplined(map[], CommitCall(stripes, modes))
  {
    hide Disciplined;
    var held: map<nat, bool> := map[METADATA := true];
    var again := [Acquire(METADATA, true), Release(METADATA)];
    var back := ReleaseStripes(stripes) + again;
    assert CommitCall(stripes, modes)
        == [Acquire(METADATA, true)] + (AcquireStripes(stripes, modes) + ([Release(METADATA)] + back));
    OneOp(map[], Acquire(METADATA, true), AcquireStripes(stripes, modes) + ([Release(METADATA)] + back));
    AcquiringIsDisciplined(held, stripes, modes, [Release(METADATA)] + back);
    OneOp(HeldWith(held, stripes, modes), Release(METADATA), back);
    WithoutMetadata(held, stripes, modes);
    assert held - {METADATA} == map[];
    ReleasingIsDisciplined(map[], stripes, modes, again);
    assert again == [Acquire(METADATA, true)] + ([Release(METADATA)] + []);
    OneOp(map[], Acquire(METADATA, true), [Release(METADATA)] + []);
    OneOp(held, Release(METADATA), []);
    Done();
  }

  /** Taking the metadata lock again before giving up the stripes would break the order. */
  lemma StripesFirstIsUndisciplined(stripes: seq<nat>, modes: set<nat>)
    requires StripeList(stripes) && stripes != []
    ensures !Disciplined(HeldWith(map[], stripes, modes), [Acquire(METADATA, true)])
  {
    HeldFirst(map[], stripes, modes);
  }

  lemma {:induction false} HeldFirst(held: map<nat, bool>, stripes: seq<nat>, modes: set<nat>)
    ensures forall h :: h in held ==> h in HeldWith(held, stripes, modes)
    ensures forall i :: 0 <= i < |stripes| ==> stripes[i] + 1 in HeldWith(held, stripes, modes)
    decreases |stripes|
  {
    if stripes != [] {
      HeldFirst(held[stripes[0] + 1 := stripes[0] in modes], stripes[1..], modes);
      forall i | 0 <= i < |stripes| ensures stripes[i] + 1 in HeldWith(held, stripes, modes) {
        if i > 0 {
          assert stripes[i] == stripes[1..][i - 1];
        }
      }
    }
  }

  // ---- Any number of calls together ----

  /** Calls about to begin: no lock held, and each of the two shapes, on any stripes in any modes. */
  ghost predicate Starting(callers: seq<Caller>) {
    forall i :: 0 <= i < |callers| ==> callers[i].held == map[] && IsCall(callers[i].todo)
  }

  ghost predicate IsCall(todo: seq<Op>) {
    exists stripes: seq<nat>, modes: set<nat> ::
      StripeList(stripes) && (todo == RangeCall(stripes, modes) || todo == CommitCall(stripes, modes))
  }

  /** The callers after moving one at a time, each move possible when it is made. */
  ghost predicate Reaches(callers: seq<Caller>, moves: seq<nat>, later: seq<Caller>)
    decreases |moves|
  {
    if moves == [] then later == callers
    else CanMove(callers, moves[0]) && Reaches(callers[moves[0] := Moved(callers[moves[0]])], moves[1..], later)
  }

  function Remaining(callers: seq<Caller>): nat {
    if callers == [] then 0 else |callers[0].todo| + Remaining(callers[1..])
  }

  lemma {:induction false} OneLess(callers: seq<Caller>, i: nat)
    requires i < |callers| && callers[i].todo != []
    ensures Remaining(callers[i := Moved(callers[i])]) == Remaining(callers) - 1
    decreases |callers|
  {
    var next := callers[i := Moved(callers[i])];
    if i == 0 {
      assert next[1..] == callers[1..];
    } else {
      assert next[1..] == callers[1..][i - 1 := Moved(callers[1..][i - 1])];
      OneLess(callers[1..], i - 1);
    }
  }

  lemma StartingIsSane(callers: seq<Caller>)
    requires Starting(callers)
    ensures Sane(callers)
  {
    forall i | 0 <= i < |callers| ensures Disciplined(callers[i].held, callers[i].todo) {
      assert IsCall(callers[i].todo);
      var stripes: seq<nat>, modes: set<nat> :|
        StripeList(stripes) && (callers[i].todo == RangeCall(stripes, modes) || callers[i].todo == CommitCall(stripes, modes));
      RangeCallDisciplined(stripes, modes);
      CommitCallDisciplined(stripes, modes);
    }
  }

  lemma {:induction false} SaneThroughout(callers: seq<Caller>, moves: seq<nat>, later: seq<Caller>)
    requires Sane(callers) && Reaches(callers, moves, later)
    ensures Sane(later) && |later| == |callers| && Remaining(later) + |moves| == Remaining(callers)
    decreases |moves|
  {
    hide Sane, CanMove;
    if moves != [] {
      MovingStaysSane(callers, moves[0]);
      Movable(callers, moves[0]);
      OneLess(callers, moves[0]);
      SaneThroughout(callers[moves[0] := Moved(callers[moves[0]])], moves[1..], later);
    }
  }

  lemma Movable(callers: seq<Caller>, i: nat)
    requires CanMove(callers, i)
    ensures i < |callers| && callers[i].todo != []
  {
  }

  /**
   Any number of calls, started with no locks, in any interleaving: they make no more moves than they have lock
   operations, and when none can move any more, all have finished and no lock is held.
   */
  lemma CallsFinish(callers: seq<Caller>, moves: seq<nat>, later: seq<Caller>)
    requires Starting(callers) && Reaches(callers, moves, later)
    ensures |moves| <= Remaining(callers)
    ensures (forall i: nat :: !CanMove(later, i)) ==> forall i :: 0 <= i < |later| ==> later[i] == Caller(map[], [])
  {
    hide CanMove, Starting, Reaches;
    StartingIsSane(callers);
    SaneThroughout(callers, moves, later);
    if forall i: nat :: !CanMove(later, i) {
      forall i | 0 <= i < |later| ensures later[i] == Caller(map[], []) {
        if Unfinished(later, i) {
          NoDeadlock(later);
        }
        assert Disciplined(later[i].held, later[i].todo);
      }
    }
  }
}

/**
 The byte count a commit reports.

 The lines of owned pages are compared and copied one by one, in the middle of whatever else runs.  The count
 is nevertheless the one the commit would have reported had it been made in one piece.
 */
module CommitCounts {
  import opened Options
  import opened GuestMemory
  import opened MemoryInvariants
  import opened OptimisticValidation
  import opened MappingCalls
  import opened PagedAccess
  import opened TransactionCalls
  import opened CommitPages
  import opened PendingCopies
  import opened ShapeIndependence
  import opened SplitCommit
  import opened CommitProtocol
  import opened MemoryObject

  // ---- What the copies owed will still count ----

  /** How many lines from `line` on differ. */
  function LinesLeft(x: PageBytes, y: PageBytes, line: nat): nat
    decreases LINES - line
  {
    if line >= LINES then 0 else (if LineDiffers(x, y, line) then 1 else 0) + LinesLeft(x, y, line + 1)
  }

  lemma {:induction false} LeftIsRest(x: PageBytes, y: PageBytes, line: nat)
    requires line <= LINES
    ensures LinesLeft(x, y, line) + DifferingLines(x, y, line) == DifferingLines(x, y, LINES)
    decreases LINES - line
  {
    if line < LINES {
      LeftIsRest(x, y, line + 1);
    }
  }

  /** A copied line makes no difference to the lines after it. */
  lemma {:induction false} LaterLines(x: PageBytes, y: PageBytes, line: nat, k: nat)
    requires line < k
    ensures line < LINES ==> LinesLeft(WithLine(x, y, line), y, k) == LinesLeft(x, y, k)
    decreases LINES - k
  {
    if k < LINES {
      assert WithLine(x, y, line)[k * LINE..(k + 1) * LINE] == x[k * LINE..(k + 1) * LINE];
      LaterLines(x, y, line, k + 1);
    }
  }

  function BytesAt(m: Memory, b: BackingId): PageBytes {
    if IsInternal(m, b) then m.backings[b].data.bytes else ZeroPage()
  }

  /** What a copy finds when its turn comes: the storage with the copies before it made. */
  function Found(m: Memory, before: seq<Copy>, c: Copy): PageBytes {
    BytesAt(Settled(m, before), c.backing)
  }

  lemma FoundIs(m: Memory, before: seq<Copy>, c: Copy)
    requires IsInternal(m, c.backing)
    ensures var i := LastCopy(before, c.backing);
            Found(m, before, c) == if i.Some? then before[i.value].data else BytesAt(m, c.backing)
  {
  }

  /** The bytes that the owed copies of one transaction will be found to change. */
  ghost function Due(m: Memory, copies: seq<Copy>, t: TransactionId): nat
    decreases |copies|
  {
    if copies == [] then 0
    else
      var n := |copies| - 1;
      Due(m, copies[..n], t)
      + if copies[n].owner == t then LINE * LinesLeft(Found(m, copies[..n], copies[n]), copies[n].data, copies[n].line) else 0
  }

  lemma DueSnoc(m: Memory, copies: seq<Copy>, c: Copy, t: TransactionId)
    ensures Due(m, copies + [c], t)
         == Due(m, copies, t) + if c.owner == t then LINE * LinesLeft(Found(m, copies, c), c.data, c.line) else 0
  {
    assert (copies + [c])[..|copies|] == copies;
  }

  lemma {:induction false} NoneDue(m: Memory, copies: seq<Copy>, t: TransactionId)
    requires forall i :: 0 <= i < |copies| ==> copies[i].owner != t
    ensures Due(m, copies, t) == 0
    decreases |copies|
  {
    if copies != [] {
      NoneDue(m, copies[..|copies| - 1], t);
    }
  }

  // ---- Storage that is owed to is left alone ----

  ghost predicate SameOwedBytes(m: Memory, m': Memory, copies: seq<Copy>) {
    forall i :: 0 <= i < |copies| ==>
      IsInternal(m, copies[i].backing) && IsInternal(m', copies[i].backing)
      && BytesAt(m', copies[i].backing) == BytesAt(m, copies[i].backing)
  }

  lemma {:induction false} SameDue(m: Memory, m': Memory, copies: seq<Copy>, t: TransactionId)
    requires SameOwedBytes(m, m', copies)
    ensures Due(m', copies, t) == Due(m, copies, t)
    decreases |copies|
  {
    if copies != [] {
      var n := |copies| - 1;
      SameDue(m, m', copies[..n], t);
      FoundIs(m, copies[..n], copies[n]);
      FoundIs(m', copies[..n], copies[n]);
    }
  }

  /** The copies as if they owed what their storage holds already, all of it done. */
  function Frozen(m: Memory, copies: seq<Copy>): (r: seq<Copy>)
    ensures |r| == |copies|
    ensures forall i :: 0 <= i < |copies| ==> r[i] == copies[i].(data := BytesAt(m, copies[i].backing), line := LINES)
  {
    seq(|copies|, i requires 0 <= i < |copies| => copies[i].(data := BytesAt(m, copies[i].backing), line := LINES))
  }

  lemma FrozenOwed(m: Memory, copies: seq<Copy>)
    ensures forall b :: Owed(Frozen(m, copies), b) <==> Owed(copies, b)
  {
    forall b ensures Owed(Frozen(m, copies), b) <==> Owed(copies, b) {
      LastCopySame(copies, Frozen(m, copies), b);
    }
  }

  lemma FrozenInProgress(m: Memory, copies: seq<Copy>)
    requires InProgress(m, copies)
    ensures InProgress(m, Frozen(m, copies))
  {
    hide Inv, RecordsKnow;
    var frozen := Frozen(m, copies);
    forall i | 0 <= i < |copies| ensures Progress(m, frozen[i]) {
      assert Progress(m, copies[i]);
    }
  }

  lemma FrozenSame(m: Memory, m': Memory, copies: seq<Copy>)
    requires InProgress(m, copies) && InProgress(m', Frozen(m, copies))
    ensures SameOwedBytes(m, m', copies)
  {
    hide Inv, RecordsKnow;
    var frozen := Frozen(m, copies);
    forall i | 0 <= i < |copies|
      ensures IsInternal(m, copies[i].backing) && IsInternal(m', copies[i].backing)
      ensures BytesAt(m', copies[i].backing) == BytesAt(m, copies[i].backing)
    {
      assert Progress(m, copies[i]) && Progress(m', frozen[i]);
      var x := Contents(m', copies[i].backing);
      assert x[..LINES * LINE] == x && frozen[i].data[..LINES * LINE] == frozen[i].data;
    }
  }

  lemma FrozenGuarded(s: Protocol)
    requires CommitProtocol.Guarded(s)
    ensures CommitProtocol.Guarded(s.(copies := Frozen(s.memory, s.copies)))
  {
    hide BackingStripe;
  }

  lemma ServeKeeps(s: Protocol, r: Request, hash: ContentHash)
    requires Valid(s) && Inv(s.memory) && Pinned(s.memory, s.copies) && CanStep(s, Serve(r))
    ensures SameOwedBytes(s.memory, Next(s, Serve(r), hash).memory, s.copies)
  {
    hide InProgress, Settled, Inv, Pinned, Run, Compatible, PlanOf, ReplyOf, Ready, Locks, CommitProtocol.Guarded, SameOwedBytes, Frozen;
    var frozen := s.(copies := Frozen(s.memory, s.copies));
    FrozenInProgress(s.memory, s.copies);
    FrozenGuarded(s);
    SameNeeds(s, frozen, Locks(s.memory, r));
    RequestRefines(frozen, r, hash);
    FrozenSame(s.memory, Next(s, Serve(r), hash).memory, s.copies);
  }

  lemma SameNeeds(s: Protocol, s': Protocol, need: LockSet)
    requires s'.locks == s.locks
    ensures Compatible(s', need) <==> Compatible(s, need)
  {
  }

  lemma LetGoKeeps(s: Protocol, t: TransactionId, hash: ContentHash)
    requires Valid(s) && Inv(s.memory) && Pinned(s.memory, s.copies) && CanStep(s, LetGoAll(t))
    ensures SameOwedBytes(s.memory, Next(s, LetGoAll(t), hash).memory, s.copies)
  {
    hide InProgress, Inv, Pinned, Run, LetGos, SameOwedBytes, BackingStripe;
    FrozenInProgress(s.memory, s.copies);
    LetGoSettles(s.memory, Frozen(s.memory, s.copies), t, |s.memory.transactions[t].inFlight|);
    FrozenSame(s.memory, Next(s, LetGoAll(t), hash).memory, s.copies);
  }

  /** A publication leaves the storage that others still copy to alone. */
  lemma PublishKeeps(s: Protocol, step: Step, hash: ContentHash)
    requires Valid(s) && Inv(s.memory) && Pinned(s.memory, s.copies) && CanStep(s, step) && step.PublishAll?
    ensures SameOwedBytes(s.memory, Next(s, step, hash).memory, s.copies)
  {
    hide InProgress, Settled, Inv, Pinned, Run, Compatible, PublishPlan, WriteEdits, Withheld, CommitLocks, CommitProtocol.Guarded,
         SameOwedBytes, Frozen, Allocated, GoodWrites, Owed, CopiesOwed;
    var m, t, writes, cells := s.memory, step.t, step.writes, step.cells;
    var plan := PublishPlan(m, t, writes, step.granted, cells, hash);
    FrozenInProgress(m, s.copies);
    if plan.error != Ok {
      FailedPublishQuiet(m, t, writes, step.granted, cells, hash);
      QuietSettles(m, Frozen(m, s.copies), plan.edits);
    } else {
      PublishSucceeds(m, t, writes, step.granted, cells, hash);
      WrittenNotOwed(s, t, writes);
      FrozenOwed(m, s.copies);
      HeldNotOwed(m, writes, s.copies);
      PublishProgress(m, Frozen(m, s.copies), t, Withheld(m, writes), cells, hash, |writes|);
    }
    FrozenSame(m, Next(s, step, hash).memory, s.copies);
  }

  lemma HeldNotOwed(m: Memory, writes: seq<PageWrite>, copies: seq<Copy>)
    requires Inv(m) && GoodWrites(m, writes)
    requires forall i :: 0 <= i < |writes| ==> !Owed(copies, BackingOf(m, WritePage(writes[i])))
    ensures var held := Withheld(m, writes);
            forall i :: 0 <= i < |held| ==> !Owed(Frozen(m, copies), BackingOf(m, WritePage(held[i])))
  {
    hide Inv, Owed;
    FrozenOwed(m, copies);
    forall i | 0 <= i < |writes| ensures WritePage(Withheld(m, writes)[i]) == WritePage(writes[i]) {
    }
  }

  // ---- Copying ----

  /** Storage to which one more line has been copied. */
  ghost predicate LineDone(m: Memory, m': Memory, c: Copy) {
    && OnlyBytesOf(m, m', c.backing) && IsInternal(m, c.backing) && IsInternal(m', c.backing) && c.line < LINES
    && BytesAt(m', c.backing) == WithLine(BytesAt(m, c.backing), c.data, c.line)
  }

  /** Copies before and after one of them has one more line done; it is the first to its storage. */
  ghost predicate OneLineMore(copies: seq<Copy>, copies': seq<Copy>, i: nat) {
    && i < |copies| && copies' == copies[i := copies[i].(line := copies[i].line + 1)]
    && forall j :: 0 <= j < i ==> copies[j].backing != copies[i].backing
  }

  lemma FoundByOther(m: Memory, m': Memory, copies: seq<Copy>, copies': seq<Copy>, i: nat, j: nat)
    requires OneLineMore(copies, copies', i) && j < |copies| && j != i && LineDone(m, m', copies[i])
    requires IsInternal(m, copies[j].backing)
    ensures Found(m', copies'[..j], copies[j]) == Found(m, copies[..j], copies[j])
  {
    var b := copies[j].backing;
    LastCopySame(copies[..j], copies'[..j], b);
    FoundIs(m, copies[..j], copies[j]);
    FoundIs(m', copies'[..j], copies[j]);
    if b == copies[i].backing {
      assert i < j;
      assert copies[..j][i] == copies[i];
    }
  }

  lemma FoundByItself(m: Memory, copies: seq<Copy>, i: nat)
    requires i < |copies| && IsInternal(m, copies[i].backing)
    requires forall j :: 0 <= j < i ==> copies[j].backing != copies[i].backing
    ensures Found(m, copies[..i], copies[i]) == BytesAt(m, copies[i].backing)
  {
    FoundIs(m, copies[..i], copies[i]);
  }

  lemma LineCounts(before: PageBytes, data: PageBytes, line: nat)
    requires line < LINES
    ensures LinesLeft(before, data, line)
         == (if LineDiffers(before, data, line) then 1 else 0) + LinesLeft(WithLine(before, data, line), data, line + 1)
  {
    LaterLines(before, data, line, line + 1);
  }

  lemma {:induction false} CopyLineDue(m: Memory, m': Memory, copies: seq<Copy>, copies': seq<Copy>, i: nat, n: nat, t: TransactionId)
    requires i < |copies| && OneLineMore(copies, copies', i) && n <= |copies| == |copies'| && LineDone(m, m', copies[i])
    requires copies[i].line < LINES
    requires forall j :: 0 <= j < n ==> IsInternal(m, copies[j].backing)
    ensures Due(m, copies[..n], t)
         == Due(m', copies'[..n], t)
            + if i < n && copies[i].owner == t && LineDiffers(BytesAt(m, copies[i].backing), copies[i].data, copies[i].line)
              then LINE else 0
    decreases n
  {
    hide LineDone, Found, LinesLeft, LineDiffers, WithLine, OneLineMore, BytesAt, Due;
    if n > 0 {
      var j := n - 1;
      CopyLineDue(m, m', copies, copies', i, j, t);
      MoreLength(copies, copies', i);
      assert copies[..n] == copies[..j] + [copies[j]] && copies'[..n] == copies'[..j] + [copies'[j]];
      DueSnoc(m, copies[..j], copies[j], t);
      DueSnoc(m', copies'[..j], copies'[j], t);
      CopyLineTerm(m, m', copies, copies', i, j);
    } else {
      NoneDue(m, copies[..0], t);
      NoneDue(m', copies'[..0], t);
    }
  }

  lemma MoreLength(copies: seq<Copy>, copies': seq<Copy>, i: nat)
    requires OneLineMore(copies, copies', i)
    ensures |copies'| == |copies| && forall j :: 0 <= j < |copies| ==> copies'[j].owner == copies[j].owner
  {
  }

  /** What the j-th copy will count, before and after the line. */
  lemma CopyLineTerm(m: Memory, m': Memory, copies: seq<Copy>, copies': seq<Copy>, i: nat, j: nat)
    requires OneLineMore(copies, copies', i) && j < |copies| && copies[i].line < LINES
    requires LineDone(m, m', copies[i]) && IsInternal(m, copies[j].backing)
    ensures LinesLeft(Found(m, copies[..j], copies[j]), copies[j].data, copies[j].line)
         == LinesLeft(Found(m', copies'[..j], copies'[j]), copies'[j].data, copies'[j].line)
            + if j == i && LineDiffers(BytesAt(m, copies[i].backing), copies[i].data, copies[i].line) then 1 else 0
  {
    hide LineDone, Found, LinesLeft, LineDiffers, WithLine;
    if j == i {
      FoundByItself(m, copies, i);
      LineDoneIs(m, m', copies[i]);
      FoundByItself(m', copies', i);
      LineCounts(BytesAt(m, copies[i].backing), copies[i].data, copies[i].line);
    } else {
      FoundByOther(m, m', copies, copies', i, j);
    }
  }

  lemma LineDoneIs(m: Memory, m': Memory, c: Copy)
    requires LineDone(m, m', c)
    ensures c.line < LINES && IsInternal(m', c.backing)
    ensures BytesAt(m', c.backing) == WithLine(BytesAt(m, c.backing), c.data, c.line)
  {
  }

  lemma FirstToStorage(s: Protocol, i: nat)
    requires Valid(s) && i < |s.copies| && FirstOfOwner(s.copies, i)
    ensures forall j :: 0 <= j < i ==> s.copies[j].backing != s.copies[i].backing
  {
    hide InProgress, BackingStripe;
    forall j | 0 <= j < i ensures s.copies[j].backing != s.copies[i].backing {
      SameOwner(s, i, j);
    }
  }

  lemma CopyLineCounts(s: Protocol, i: nat, t: TransactionId, hash: ContentHash)
    requires Valid(s) && Inv(s.memory) && Pinned(s.memory, s.copies) && CanStep(s, CopyLine(i))
    ensures Due(s.memory, s.copies, t)
         == CountedBy(s, CopyLine(i), t, hash) + Due(Next(s, CopyLine(i), hash).memory, Next(s, CopyLine(i), hash).copies, t)
  {
    hide Valid, Inv, Due, WithLine, LineDiffers, LineDone, SameShape, SetBytes;
    var m, c, s' := s.memory, s.copies[i], Next(s, CopyLine(i), hash);
    FirstToStorage(s, i);
    LineCopied(m, c, WithLine(Contents(m, c.backing), c.data, c.line));
    assert LineDone(m, s'.memory, c) by {
      DoneLine(m, c);
    }
    CopyLineDue(m, s'.memory, s.copies, s'.copies, i, |s.copies|, t);
    assert s.copies[..|s.copies|] == s.copies && s'.copies[..|s.copies|] == s'.copies;
  }

  lemma DoneLine(m: Memory, c: Copy)
    requires IsInternal(m, c.backing) && c.line < LINES
    ensures LineDone(m, SetBytes(m, c.backing, WithLine(Contents(m, c.backing), c.data, c.line)), c)
  {
    hide WithLine;
  }

  // ---- Forgetting a copy that is done ----

  lemma {:induction false} EndCopyDue(m: Memory, copies: seq<Copy>, i: nat, n: nat, t: TransactionId)
    requires i < n <= |copies| && Progress(m, copies[i]) && copies[i].line == LINES
    requires forall j :: 0 <= j < i ==> copies[j].backing != copies[i].backing
    requires forall j :: 0 <= j < n ==> IsInternal(m, copies[j].backing)
    ensures Due(m, copies[..i] + copies[i + 1..n], t) == Due(m, copies[..n], t)
    decreases n
  {
    hide Found;
    var j := n - 1;
    assert copies[..n] == copies[..j] + [copies[j]];
    DueSnoc(m, copies[..j], copies[j], t);
    if j == i {
      assert copies[..i] + copies[i + 1..n] == copies[..j];
    } else {
      EndCopyDue(m, copies, i, j, t);
      assert copies[..i] + copies[i + 1..n] == (copies[..i] + copies[i + 1..j]) + [copies[j]];
      DueSnoc(m, copies[..i] + copies[i + 1..j], copies[j], t);
      FoundWithout(m, copies, i, j);
    }
  }

  lemma FoundWithout(m: Memory, copies: seq<Copy>, i: nat, j: nat)
    requires i < j < |copies| && Progress(m, copies[i]) && copies[i].line == LINES && IsInternal(m, copies[j].backing)
    requires forall k :: 0 <= k < i ==> copies[k].backing != copies[i].backing
    ensures Found(m, copies[..i] + copies[i + 1..j], copies[j]) == Found(m, copies[..j], copies[j])
  {
    var before, b := copies[..j], copies[j].backing;
    assert Without(before, i) == copies[..i] + copies[i + 1..j];
    LastCopyWithout(before, i, b);
    FoundIs(m, before, copies[j]);
    FoundIs(m, Without(before, i), copies[j]);
    var x := Contents(m, copies[i].backing);
    assert x[..LINES * LINE] == x && copies[i].data[..LINES * LINE] == copies[i].data;
  }

  lemma EndCopyCounts(s: Protocol, i: nat, t: TransactionId, hash: ContentHash)
    requires Valid(s) && Inv(s.memory) && Pinned(s.memory, s.copies) && CanStep(s, EndCopy(i))
    ensures Due(Next(s, EndCopy(i), hash).memory, Next(s, EndCopy(i), hash).copies, t) == Due(s.memory, s.copies, t)
  {
    hide Inv, RecordsKnow, BackingStripe, Contents, Due;
    FirstToStorage(s, i);
    var n := |s.copies|;
    assert Progress(s.memory, s.copies[i]);
    EndCopyDue(s.memory, s.copies, i, n, t);
    assert s.copies[..n] == s.copies && s.copies[i + 1..n] == s.copies[i + 1..];
  }

  // ---- Publishing ----

  lemma {:induction false} DueOfOthers(m: Memory, copies: seq<Copy>, more: seq<Copy>, t: TransactionId)
    requires forall i :: 0 <= i < |more| ==> more[i].owner != t
    ensures Due(m, copies + more, t) == Due(m, copies, t)
    decreases |more|
  {
    if more == [] {
      assert copies + more == copies;
    } else {
      var n := |more| - 1;
      DueOfOthers(m, copies, more[..n], t);
      assert copies + more == (copies + more[..n]) + [more[n]];
      DueSnoc(m, copies + more[..n], more[n], t);
    }
  }

  /** Copies owed before the commit go elsewhere. */
  lemma {:induction false} LastCopyBehind(copies: seq<Copy>, more: seq<Copy>, b: BackingId)
    requires !Owed(copies, b)
    ensures var i, j := LastCopy(copies + more, b), LastCopy(more, b);
            (i.Some? <==> j.Some?) && (i.Some? ==> (copies + more)[i.value] == more[j.value])
    decreases |more|
  {
    if more == [] {
      assert copies + more == copies;
    } else {
      var n := |more| - 1;
      LastCopyBehind(copies, more[..n], b);
      assert (copies + more)[..|copies| + n] == copies + more[..n];
    }
  }

  /** The copy of the i-th write finds what the page held just before that write. */
  lemma OwedFinds(
    m: Memory, m': Memory, copies: seq<Copy>, t: TransactionId, writes: seq<PageWrite>, cells: seq<Fresh>, hash: ContentHash, i: nat)
    requires Inv(m) && t in m.transactions && GoodWrites(m, writes) && i < |writes| == |cells| && Allocated(m, cells)
    requires m' == Run(m, WriteEdits(m, t, Withheld(m, writes), cells, hash, |writes|))
    requires IsInternal(m, BackingOf(m, WritePage(writes[i]))) && !Owed(copies, HomeAfter(m, WritePage(writes[i]), cells[i]))
    ensures Loadable(m, WritePage(writes[i]))
    ensures Found(m', copies + CopiesOwed(m, t, writes, cells, i), CopyOwed(m, t, writes, cells, i)[0]) == Before(m, writes, i)
  {
    hide Inv, Run, WriteEdits, Withheld, Allocated, CopiesOwed, GoodWrites, HomeAfter, Before, SetBytes;
    GoodAt(m, writes, i);
    CopyTarget(m, m', t, writes, cells, hash, i);
    HomeHolds(m, t, writes, cells, hash, i);
    var c, owed := CopyOwed(m, t, writes, cells, i)[0], CopiesOwed(m, t, writes, cells, i);
    LastCopyBehind(copies, owed, c.backing);
    FoundIs(m', copies + owed, c);
    FoundIs(m', owed, c);
    SettledKind(m', owed, c.backing);
  }

  lemma SettledKind(m: Memory, copies: seq<Copy>, b: BackingId)
    requires IsInternal(m, b)
    ensures IsInternal(Settled(m, copies), b) && BytesAt(Settled(m, copies), b) == Contents(Settled(m, copies), b)
  {
  }

  lemma {:induction false} PublishedDue(
    m: Memory, m': Memory, copies: seq<Copy>, t: TransactionId, writes: seq<PageWrite>, cells: seq<Fresh>, hash: ContentHash, k: nat)
    requires Inv(m) && t in m.transactions && GoodWrites(m, writes) && k <= |writes| == |cells| && Allocated(m, cells)
    requires m' == Run(m, WriteEdits(m, t, Withheld(m, writes), cells, hash, |writes|))
    requires forall i :: 0 <= i < |writes| ==> !Owed(copies, HomeAfter(m, WritePage(writes[i]), cells[i]))
    ensures Due(m', copies + CopiesOwed(m, t, writes, cells, k), t) == Due(m', copies, t) + BytesChanged(m, writes, k, false)
    decreases k
  {
    hide Inv, Run, WriteEdits, Withheld, Allocated, GoodWrites, HomeAfter, Before, BytesChanged, Found, Due, CopiesOwed, Owed,
         DifferingLines;
    BytesChangedFrom(m, writes, k, false);
    CopiesOwedFrom(m, t, writes, cells, k);
    if k == 0 {
      assert copies + CopiesOwed(m, t, writes, cells, 0) == copies;
    } else {
      var i := k - 1;
      GoodAt(m, writes, i);
      PublishedDue(m, m', copies, t, writes, cells, hash, i);
      var prior := copies + CopiesOwed(m, t, writes, cells, i);
      if IsInternal(m, BackingOf(m, WritePage(writes[i]))) {
        var c := CopyOwed(m, t, writes, cells, i)[0];
        OwedFinds(m, m', copies, t, writes, cells, hash, i);
        LeftIsRest(Before(m, writes, i), c.data, 0);
        assert DifferingLines(Before(m, writes, i), c.data, 0) == 0 by { NoLines(Before(m, writes, i), c.data); }
        assert copies + CopiesOwed(m, t, writes, cells, k) == prior + [c];
        DueSnoc(m', prior, c, t);
      } else {
        assert copies + CopiesOwed(m, t, writes, cells, k) == prior;
      }
    }
  }

  lemma NoLines(x: PageBytes, y: PageBytes)
    ensures DifferingLines(x, y, 0) == 0
  {
  }

  /** What a step adds to the count that a transaction's commit will report. */
  ghost function CountedBy(s: Protocol, step: Step, t: TransactionId, hash: ContentHash): nat
    requires Inv(s.memory) && Pinned(s.memory, s.copies) && CanStep(s, step)
  {
    match step
    case CopyLine(i) =>
      var c := s.copies[i];
      if c.owner == t && LineDiffers(BytesAt(s.memory, c.backing), c.data, c.line) then LINE else 0
    case PublishAll(u, writes, granted, cells) =>
      if u == t && PublishPlan(s.memory, u, writes, granted, cells, hash).error == Ok then
        PublishSucceeds(s.memory, u, writes, granted, cells, hash);
        BytesChanged(s.memory, writes, |writes|, true)
      else 0
    case _ => 0
  }

  lemma HomesNotOwed(s: Protocol, t: TransactionId, writes: seq<PageWrite>, cells: seq<Fresh>)
    requires Valid(s) && t in s.memory.transactions && GoodWrites(s.memory, writes) && |cells| == |writes|
    requires Allocated(s.memory, cells) && Compatible(s, CommitLocks(s.memory, t, writes))
    ensures forall i :: 0 <= i < |writes| ==> !Owed(s.copies, HomeAfter(s.memory, WritePage(writes[i]), cells[i]))
  {
    hide Inv, RecordsKnow, Compatible, CommitLocks, CommitProtocol.Guarded;
    WrittenNotOwed(s, t, writes);
    forall i | 0 <= i < |writes| ensures !Owed(s.copies, HomeAfter(s.memory, WritePage(writes[i]), cells[i])) {
      assert IsFresh(s.memory, cells[i]);
    }
  }

  lemma NoCopiesOfIdle(s: Protocol, t: TransactionId)
    requires Valid(s) && t !in s.locks
    ensures forall i :: 0 <= i < |s.copies| ==> s.copies[i].owner != t
  {
    hide InProgress, BackingStripe;
  }

  /** A publication owes its transaction what the whole commit would have counted for owned pages, and others nothing. */
  lemma PublishDue(s: Protocol, step: Step, t: TransactionId, hash: ContentHash)
    requires Valid(s) && Inv(s.memory) && Pinned(s.memory, s.copies) && CanStep(s, step) && step.PublishAll?
    ensures var m, s' := s.memory, Next(s, step, hash);
            var ok := PublishPlan(m, step.t, step.writes, step.granted, step.cells, hash).error == Ok;
            && (t != step.t || !ok ==> Due(s'.memory, s'.copies, t) == Due(m, s.copies, t))
            && (t == step.t && ok ==>
                  && Due(m, s.copies, t) == 0 && GoodWrites(m, step.writes)
                  && Due(s'.memory, s'.copies, t) == BytesChanged(m, step.writes, |step.writes|, false))
  {
    hide InProgress, Inv, Pinned, Run, Compatible, PublishPlan, WriteEdits, Withheld, CommitLocks, CommitProtocol.Guarded, SameOwedBytes,
         Allocated, GoodWrites, Owed, CopiesOwed, Due, BytesChanged, HomeAfter, Valid;
    var m, u, writes, cells, s' := s.memory, step.t, step.writes, step.cells, Next(s, step, hash);
    PublishKeeps(s, step, hash);
    SameDue(m, s'.memory, s.copies, t);
    if PublishPlan(m, u, writes, step.granted, cells, hash).error == Ok {
      PublishSucceeds(m, u, writes, step.granted, cells, hash);
      var more := CopiesOwed(m, u, writes, cells, |writes|);
      if t == u {
        NoCopiesOfIdle(s, t);
        NoneDue(m, s.copies, t);
        HomesNotOwed(s, t, writes, cells);
        PublishedDue(m, s'.memory, s.copies, t, writes, cells, hash, |writes|);
      } else {
        OwnersOf(m, u, writes, cells, |writes|);
        DueOfOthers(s'.memory, s.copies, more, t);
      }
    }
  }

  lemma {:induction false} OwnersOf(m: Memory, t: TransactionId, writes: seq<PageWrite>, cells: seq<Fresh>, k: nat)
    requires GoodWrites(m, writes) && k <= |writes| == |cells|
    ensures forall i :: 0 <= i < |CopiesOwed(m, t, writes, cells, k)| ==> CopiesOwed(m, t, writes, cells, k)[i].owner == t
    decreases k
  {
    hide GoodWrites;
    CopiesOwedFrom(m, t, writes, cells, k);
    if k > 0 {
      OwnersOf(m, t, writes, cells, k - 1);
    }
  }

  /** What is due plus what has been counted never changes, but by a publication of the transaction itself. */
  lemma StepCounts(s: Protocol, step: Step, t: TransactionId, hash: ContentHash)
    requires Valid(s) && Inv(s.memory) && Pinned(s.memory, s.copies) && CanStep(s, step)
    requires !(step.PublishAll? && step.t == t)
    ensures var s' := Next(s, step, hash);
            Due(s.memory, s.copies, t) == CountedBy(s, step, t, hash) + Due(s'.memory, s'.copies, t)
  {
    hide Valid, Inv, Pinned, Due, SameOwedBytes, BytesChanged, Run, PlanOf, PublishPlan, LetGos, WriteEdits, CommitLocks, Locks, Ready,
         Compatible, LineDiffers, SetBytes, Withheld, CopiesOwed;
    match step
    case Serve(r) =>
      ServeKeeps(s, r, hash);
      SameDue(s.memory, Next(s, step, hash).memory, s.copies, t);
    case PublishAll(_, _, _, _) => PublishDue(s, step, t, hash);
    case CopyLine(i) => CopyLineCounts(s, i, t, hash);
    case EndCopy(i) => EndCopyCounts(s, i, t, hash);
    case ReleaseStripes(_) =>
    case LetGoAll(u) =>
      LetGoKeeps(s, u, hash);
      SameDue(s.memory, Next(s, step, hash).memory, s.copies, t);
  }

  // ---- The same count on settled memory ----

  lemma ShapeStorage(m: Memory, z: Memory, writes: seq<PageWrite>, k: nat, q: nat, r: nat)
    requires SameShape(m, z)
    ensures OneStorage(z, writes, k, q, r) <==> OneStorage(m, writes, k, q, r)
  {
  }

  lemma {:induction false} ShapeLastWriter(m: Memory, z: Memory, writes: seq<PageWrite>, k: nat, n: nat, q: nat)
    requires SameShape(m, z) && n <= |writes|
    ensures LastWriter(z, writes, k, n, q) == LastWriter(m, writes, k, n, q)
    decreases n
  {
    hide SameShape, OneStorage;
    if n > 0 {
      ShapeStorage(m, z, writes, k, WritePage(writes[n - 1]), q);
      ShapeLastWriter(m, z, writes, k, n - 1, q);
    }
  }

  lemma {:induction false} SettledCount(m: Memory, copies: seq<Copy>, writes: seq<PageWrite>, k: nat, external: bool)
    requires Inv(m) && GoodWrites(m, writes) && k <= |writes| && CopiesLive(m, copies)
    requires forall i :: 0 <= i < |writes| ==> !Owed(copies, BackingOf(m, WritePage(writes[i])))
    ensures Inv(Settled(m, copies)) && GoodWrites(Settled(m, copies), writes)
    ensures BytesChanged(Settled(m, copies), writes, k, external) == BytesChanged(m, writes, k, external)
    decreases k
  {
    hide Inv, Settled, SameShape, BytesChanged, Owed, CopiesLive, LoadPage, LastWriter, DifferingLines, Loadable;
    var z := Settled(m, copies);
    SettledSameShape(m, copies);
    ShapeKeepsInv(m, z);
    ShapeWrites(m, z, writes);
    BytesChangedFrom(m, writes, k, external);
    BytesChangedFrom(z, writes, k, external);
    if k > 0 {
      var p := WritePage(writes[k - 1]);
      SettledCount(m, copies, writes, k - 1, external);
      SettledLoad(m, copies, p);
      ShapeLastWriter(m, z, writes, |writes|, k - 1, p);
      ShapeHome(m, z, p);
    }
  }

  lemma ShapeWrites(m: Memory, z: Memory, writes: seq<PageWrite>)
    requires SameShape(m, z) && GoodWrites(m, writes)
    ensures GoodWrites(z, writes)
  {
  }

  lemma ShapeHome(m: Memory, z: Memory, p: nat)
    requires SameShape(m, z) && Backed(m, p)
    ensures Backed(z, p) && BackingOf(z, p) == BackingOf(m, p)
    ensures IsInternal(z, BackingOf(z, p)) <==> IsInternal(m, BackingOf(m, p))
  {
  }

  // ---- Whole runs ----

  /** What a schedule counts for one transaction. */
  ghost function CountedOver(s: Protocol, steps: seq<Step>, t: TransactionId, hash: ContentHash): nat
    requires Schedule(s, steps, hash)
    decreases |steps|
  {
    if steps == [] then 0
    else
      ValidHasInv(s);
      CountedBy(s, steps[0], t, hash) + CountedOver(Next(s, steps[0], hash), steps[1..], t, hash)
  }

  /** The transaction does not publish again. */
  ghost predicate PublishesNot(steps: seq<Step>, t: TransactionId) {
    forall i :: 0 <= i < |steps| ==> !(steps[i].PublishAll? && steps[i].t == t)
  }

  lemma {:induction false} RunCounts(s: Protocol, steps: seq<Step>, t: TransactionId, hash: ContentHash)
    requires Schedule(s, steps, hash) && PublishesNot(steps, t)
    ensures var s' := Final(s, steps, hash);
            Due(s.memory, s.copies, t) == CountedOver(s, steps, t, hash) + Due(s'.memory, s'.copies, t)
    decreases |steps|
  {
    hide Valid, Inv, Pinned, Due, Next, CanStep, Covered, CountedBy;
    if steps != [] {
      ValidHasInv(s);
      assert !(steps[0].PublishAll? && steps[0].t == t);
      StepCounts(s, steps[0], t, hash);
      forall i | 0 <= i < |steps[1..]| ensures !(steps[1..][i].PublishAll? && steps[1..][i].t == t) {
        assert steps[1..][i] == steps[i + 1];
      }
      RunCounts(Next(s, steps[0], hash), steps[1..], t, hash);
    }
  }

  /**
   The count a commit has made by the time it is done copying, whatever ran in between, is the count of the commit
   made in one piece on the memory as it was with all owed copies made.
   */
  lemma CommitCountIsWhole(s: Protocol, publish: Step, steps: seq<Step>, hash: ContentHash)
    requires Schedule(s, [publish] + steps, hash) && publish.PublishAll? && publish.t in s.memory.transactions
    requires |publish.granted| == |publish.cells| == |publish.writes| && Inv(s.memory)
    requires PublishPlan(s.memory, publish.t, publish.writes, publish.granted, publish.cells, hash).error == Ok
    requires PublishesNot(steps, publish.t)
    requires forall i :: 0 <= i < |Final(s, [publish] + steps, hash).copies| ==>
               Final(s, [publish] + steps, hash).copies[i].owner != publish.t
    ensures var z, n := Settled(s.memory, s.copies), |publish.writes|;
            && Inv(z) && GoodWrites(z, publish.writes)
            && CountedOver(s, [publish] + steps, publish.t, hash)
               == BytesChanged(z, publish.writes, n, true) + BytesChanged(z, publish.writes, n, false)
  {
    hide Valid, Inv, Pinned, Due, Next, CanStep, Covered, BytesChanged, Settled, PublishPlan;
    var t, all := publish.t, [publish] + steps;
    assert all[0] == publish && all[1..] == steps;
    ValidHasInv(s);
    PublishDue(s, publish, t, hash);
    var s1 := Next(s, publish, hash);
    RunCounts(s1, steps, t, hash);
    NoneDue(Final(s, all, hash).memory, Final(s, all, hash).copies, t);
    PublishedClear(s, publish, hash);
    SettledCount(s.memory, s.copies, publish.writes, |publish.writes|, true);
    SettledCount(s.memory, s.copies, publish.writes, |publish.writes|, false);
  }

  lemma PublishedClear(s: Protocol, publish: Step, hash: ContentHash)
    requires Valid(s) && Inv(s.memory) && Pinned(s.memory, s.copies) && publish.PublishAll? && CanStep(s, publish)
    requires PublishPlan(s.memory, publish.t, publish.writes, publish.granted, publish.cells, hash).error == Ok
    ensures GoodWrites(s.memory, publish.writes) && CopiesLive(s.memory, s.copies)
    ensures forall i :: 0 <= i < |publish.writes| ==> !Owed(s.copies, BackingOf(s.memory, WritePage(publish.writes[i])))
    ensures CountedBy(s, publish, publish.t, hash) == BytesChanged(s.memory, publish.writes, |publish.writes|, true)
  {
    hide Inv, PublishPlan, Pinned, Owed, Compatible, CommitLocks, CommitProtocol.Guarded, InProgress, BytesChanged, GoodWrites;
    PublishSucceeds(s.memory, publish.t, publish.writes, publish.granted, publish.cells, hash);
    WrittenNotOwed(s, publish.t, publish.writes);
    ProgressPinned(s.memory, s.copies);
  }
}

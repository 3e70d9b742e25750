/**
 `commit_pages` as it really runs: pages are published and pinned under the metadata lock, and the bytes
 of owned pages follow later, line by line.  Settling what it owes gives the commit made in one piece.
 */
module SplitCommit {
  import opened Options
  import opened GuestMemory
  import opened MemoryInvariants
  import opened OptimisticValidation
  import opened MappingCalls
  import opened MappingEffects
  import opened MappingTheorems
  import opened PagedAccess
  import opened TransactionCalls
  import opened CommitPages
  import opened PendingCopies

  /** The same writes, with the data of owned pages held back: they keep their bytes for now. */
  ghost function Withheld(m: Memory, writes: seq<PageWrite>): (r: seq<PageWrite>)
    requires Inv(m) && GoodWrites(m, writes)
    ensures |r| == |writes| && GoodWrites(m, r)
    ensures forall i :: 0 <= i < |r| ==> r[i].address == writes[i].address
  {
    seq(|writes|, i requires 0 <= i < |writes| =>
      assert WritePage(writes[i]) == WritePage(PageWrite(writes[i].address, None));
      if IsInternal(m, BackingOf(m, WritePage(writes[i])))
      then PageWrite(writes[i].address, Some(LoadPage(m, WritePage(writes[i])))) else writes[i])
  }

  /** Where a published page's bytes go. */
  ghost function HomeAfter(m: Memory, p: nat, cell: Fresh): BackingId
    requires Backed(m, p)
  {
    if NeedsCopy(m, p) then cell.id else BackingOf(m, p)
  }

  /** The copies owed for the first `k` writes. */
  ghost function CopiesOwed(m: Memory, t: TransactionId, writes: seq<PageWrite>, cells: seq<Fresh>, k: nat): seq<Copy>
    requires GoodWrites(m, writes) && k <= |writes| == |cells|
  {
    if k == 0 then []
    else CopiesOwed(m, t, writes, cells, k - 1) + CopyOwed(m, t, writes, cells, k - 1)
  }

  ghost function CopyOwed(m: Memory, t: TransactionId, writes: seq<PageWrite>, cells: seq<Fresh>, i: nat): seq<Copy>
    requires GoodWrites(m, writes) && i < |writes| == |cells|
  {
    var p := WritePage(writes[i]);
    if IsInternal(m, BackingOf(m, p)) then [Copy(t, HomeAfter(m, p, cells[i]), writes[i].data.value, 0)] else []
  }

  lemma PublishHome(s: Memory, p: nat, copy: Option<Fresh>, bytes: PageBytes)
    requires Enabled(s, Publish(p, copy, bytes)) && IsInternal(s, BackingOf(s, p))
    ensures var s' := Apply(s, Publish(p, copy, bytes)); var b := if copy.Some? then copy.value.id else BackingOf(s, p);
            Backed(s', p) && BackingOf(s', p) == b && IsInternal(s', b)
  {
  }

  /** One write, published: settled, it is the write published with its data. */
  lemma PublishOneSettles(
    m: Memory, s: Memory, copies: seq<Copy>, t: TransactionId, writes: seq<PageWrite>, cells: seq<Fresh>, k: nat)
    requires Inv(m) && Inv(s) && Pinned(s, copies) && GoodWrites(m, writes) && k < |writes| == |cells|
    requires Awaiting(m, s, t, Withheld(m, writes), cells, k) && Allocated(m, cells)
    ensures var p := WritePage(writes[k]);
            var s' := Apply(s, PublishEdit(m, p, cells[k], Withheld(m, writes)[k].data.value));
            var owed := copies + CopyOwed(m, t, writes, cells, k);
            && Settled(s', owed) == Apply(Settled(s, copies), PublishEdit(m, p, cells[k], writes[k].data.value))
            && Inv(s') && Pinned(s', copies) && CopiesLive(s', owed)
            && Backed(s', p) && s'.transactions == s.transactions
            && (IsInternal(m, BackingOf(m, p)) ==>
                  BackingOf(s', p) == HomeAfter(m, p, cells[k]) && IsInternal(s', HomeAfter(m, p, cells[k])))
  {
    hide Inv, Apply, Settled, Allocated, Enabled, Pinned, AmongWrites;
    var p, held := WritePage(writes[k]), Withheld(m, writes);
    assert WritePage(held[k]) == p;
    var publish := PublishEdit(m, p, cells[k], held[k].data.value);
    PublishEnabled(m, s, t, held, cells, k);
    NotYetAmong(m, held, k);
    PinnedLive(s, copies);
    PinnedKept(s, copies, publish);
    PinnedLive(Apply(s, publish), copies);
    PublishFrame(s, p, publish.copy, held[k].data.value);
    StillBacked(s, publish, p);
    if IsInternal(m, BackingOf(m, p)) {
      PublishHome(s, p, publish.copy, held[k].data.value);
      var c := Copy(t, HomeAfter(m, p, cells[k]), writes[k].data.value, 0);
      PublishOwedSettles(s, copies, p, publish.copy, held[k].data.value, c);
      OneMoreLive(Apply(s, publish), copies, c);
    } else {
      PublishExternalSettles(s, copies, p, held[k].data.value);
      assert copies + CopyOwed(m, t, writes, cells, k) == copies;
    }
  }

  lemma StillBacked(s: Memory, e: Edit, p: nat)
    requires Inv(s) && Backed(s, p) && e.Publish? && e.page == p && Enabled(s, e)
    ensures Backed(Apply(s, e), p)
  {
  }

  lemma OneMoreLive(s: Memory, copies: seq<Copy>, c: Copy)
    requires CopiesLive(s, copies) && IsInternal(s, c.backing)
    ensures CopiesLive(s, copies + [c])
  {
    forall b | Owed(copies + [c], b) ensures IsInternal(s, b) {
      LastCopyAppended(copies, c, b);
    }
  }

  lemma HeldNowPinned(s: Memory, copies: seq<Copy>, owed: seq<Copy>, t: TransactionId, p: nat, b: BackingId)
    requires Inv(s) && Pinned(s, copies) && t in s.transactions && Backed(s, p)
    requires owed == [] || (|owed| == 1 && owed[0].owner == t && owed[0].backing == b == BackingOf(s, p) && IsInternal(s, b))
    ensures Inv(Apply(s, Hold(t, p))) && Pinned(Apply(s, Hold(t, p)), copies + owed)
  {
    hide Inv, Apply;
    PinnedKept(s, copies, Hold(t, p));
    HoldResult(s, t, p);
    KindKept(s, Hold(t, p));
    var s' := Apply(s, Hold(t, p));
    if owed != [] {
      HoldTransactions(s, t, p);
      assert s'.transactions[t].inFlight[|s.transactions[t].inFlight|] == b;
      HeldAlive(s', t, b);
    }
  }

  lemma HoldTransactions(s: Memory, t: TransactionId, p: nat)
    requires t in s.transactions && Backed(s, p)
    ensures t in Apply(s, Hold(t, p)).transactions
  {
  }

  /** One write, published, pinned and recorded. */
  lemma SplitStep(
    m: Memory, s: Memory, copies: seq<Copy>, t: TransactionId, writes: seq<PageWrite>, cells: seq<Fresh>,
    hash: ContentHash, k: nat)
    requires Inv(m) && Inv(s) && Pinned(s, copies) && GoodWrites(m, writes) && k < |writes| == |cells|
    requires t in m.transactions && t in s.transactions
    requires Awaiting(m, s, t, Withheld(m, writes), cells, k) && Allocated(m, cells)
    ensures var p, bytes, held := WritePage(writes[k]), writes[k].data.value, Withheld(m, writes)[k].data.value;
            var s' := Run(s, [PublishEdit(m, p, cells[k], held), Hold(t, p)] + RecordEdit(m, t, p, held, hash));
            var owed := copies + CopyOwed(m, t, writes, cells, k);
            && Settled(s', owed)
               == Run(Settled(s, copies), [PublishEdit(m, p, cells[k], bytes), Hold(t, p)] + RecordEdit(m, t, p, bytes, hash))
            && Pinned(s', owed)
  {
    hide Inv, Run, Apply, Settled, Awaiting, Allocated, Pinned, CopiesLive, FindDependency;
    var p, bytes, held := WritePage(writes[k]), writes[k].data.value, Withheld(m, writes)[k].data.value;
    var publish, full := PublishEdit(m, p, cells[k], held), PublishEdit(m, p, cells[k], bytes);
    var record := RecordEdit(m, t, p, bytes, hash);
    var owed := CopyOwed(m, t, writes, cells, k);
    assert RecordEdit(m, t, p, held, hash) == record;
    PublishOneSettles(m, s, copies, t, writes, cells, k);
    var s1 := Apply(s, publish);
    EditSettles(s1, copies + owed, Hold(t, p));
    HeldNowPinned(s1, copies, owed, t, p, HomeAfter(m, p, cells[k]));
    var s2 := Apply(s1, Hold(t, p));
    RecordSettles(s2, copies + owed, record);
    RunAppend(s, [publish, Hold(t, p)], record);
    TwoEdits(s, publish, Hold(t, p));
    var z := Settled(s, copies);
    RunAppend(z, [full, Hold(t, p)], record);
    TwoEdits(z, full, Hold(t, p));
  }

  lemma RecordSettles(s: Memory, copies: seq<Copy>, record: seq<Edit>)
    requires Inv(s) && Pinned(s, copies)
    requires record == [] || (|record| == 1 && record[0].Refresh?)
    ensures Settled(Run(s, record), copies) == Run(Settled(s, copies), record) && Pinned(Run(s, record), copies)
  {
    hide Inv, Run, Apply, Settled, Pinned;
    NoEdits(s);
    NoEdits(Settled(s, copies));
    if record != [] {
      PinnedLive(s, copies);
      OneEdit(s, record[0]);
      OneEdit(Settled(s, copies), record[0]);
      EditSettles(s, copies, record[0]);
      PinnedKept(s, copies, record[0]);
      assert record == [record[0]];
    }
  }

  /** The commit up to where it gives up the metadata lock, settled, is the commit made in one piece. */
  lemma {:induction false} SplitRun(
    m: Memory, copies: seq<Copy>, t: TransactionId, writes: seq<PageWrite>, cells: seq<Fresh>, hash: ContentHash, k: nat)
    requires Inv(m) && Pinned(m, copies) && GoodWrites(m, writes) && k <= |writes| == |cells|
    requires t in m.transactions && Allocated(m, cells)
    ensures var s := Run(m, WriteEdits(m, t, Withheld(m, writes), cells, hash, k));
            var owed := copies + CopiesOwed(m, t, writes, cells, k);
            && Settled(s, owed) == Run(Settled(m, copies), WriteEdits(m, t, writes, cells, hash, k))
            && Inv(s) && Pinned(s, owed)
    decreases k
  {
    hide Inv, Run, Apply, Settled, Awaiting, Committed, Allocated, Pinned, GoodWrites, RecordEdit, PublishEdit, CopyOwed;
    var held := Withheld(m, writes);
    WritesRun(m, t, held, cells, hash, k);
    if k == 0 {
      NoEdits(m);
      NoEdits(Settled(m, copies));
      assert copies + CopiesOwed(m, t, writes, cells, 0) == copies;
    } else {
      SplitRun(m, copies, t, writes, cells, hash, k - 1);
      var s := Run(m, WriteEdits(m, t, held, cells, hash, k - 1));
      var owed := copies + CopiesOwed(m, t, writes, cells, k - 1);
      WritesRun(m, t, held, cells, hash, k - 1);
      GoodAt(m, writes, k - 1);
      GoodAt(m, held, k - 1);
      SplitStep(m, s, owed, t, writes, cells, hash, k - 1);
      var p := WritePage(writes[k - 1]);
      assert WritePage(held[k - 1]) == p;
      var last := [PublishEdit(m, p, cells[k - 1], held[k - 1].data.value), Hold(t, p)]
                  + RecordEdit(m, t, p, held[k - 1].data.value, hash);
      var full := [PublishEdit(m, p, cells[k - 1], writes[k - 1].data.value), Hold(t, p)]
                  + RecordEdit(m, t, p, writes[k - 1].data.value, hash);
      RunAppend(m, WriteEdits(m, t, held, cells, hash, k - 1), last);
      RunAppend(Settled(m, copies), WriteEdits(m, t, writes, cells, hash, k - 1), full);
      assert copies + CopiesOwed(m, t, writes, cells, k) == owed + CopyOwed(m, t, writes, cells, k - 1);
    }
  }
}

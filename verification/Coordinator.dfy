/**
 The coordinator that carries a guest thread back and forth between an ARM64EC engine and an x64 engine.

 The engines are unknown: each may change registers, guest memory and what of it can be reached as it likes
 and stop for any reason, and the ARM64EC engine calls back into the coordinator at any boundary it likes.
 The only thing taken for granted is that the x64 engine leaves the instruction-set tag and the transition
 cookie alone.
 */
module Coordinator {
  import opened Options
  import opened LittleEndian
  import opened StopReasons

  const UINT64_MAX := 0xFFFF_FFFF_FFFF_FFFF
  const PAGE_SIZE := 4096
  const WORD := 8
  const MAX_DEPTH := 2
  const ISA_ARM64EC := 1
  const ISA_X64 := 2

  datatype Stage = Idle | Arm | X64 | ArmCallback

  datatype Callback = NoCallback | Call | Tail

  datatype TargetKind = Arm64ecTarget | Arm64Target | X64Boundary

  datatype Target = Target(resolved: nat, kind: TargetKind)

  datatype BoundaryAction = NotHandled | Resume | Stop | Fail

  /** How a turn of the loop ends: another one, a return to the caller, or a broken invariant. */
  datatype Outcome = Go | Leave(reason: StopReason) | Broken

  /** The thread context, as far as the coordinator looks at it; `intact` is the layout and size check. */
  datatype Context = Context(
    x: seq<nat>, sp: nat, pc: nat, isa: nat, teb: nat, originalX64Sp: nat, cookie: nat,
    stopReason: StopReason, intact: bool)

  datatype Frame = Frame(
    cookie: nat, armResumePc: nat, armResumeSp: nat, priorOriginalX64Sp: nat,
    recordAddress: nat, oldRecord: nat,
    callbackResumePc: nat, callbackPreCallSp: nat, callbackArmEntrySp: nat, callbackPriorOriginalX64Sp: nat,
    callback: Callback, recordWritten: bool, resumeArmCallback: bool, callbackNested: bool)

  const NO_FRAME := Frame(0, 0, 0, 0, 0, 0, 0, 0, 0, 0, NoCallback, false, false, false)

  type Bytes = map<nat, Byte>

  /** Which bytes can be read, and at which addresses a stack record is supported and can be replaced. */
  datatype Access = Access(readable: iset<nat>, supported: iset<nat>, writable: iset<nat>)

  /** How the ARM64EC engine stopped, whether its stop information was there and agreed, and what was left pending. */
  datatype ArmAnswer = ArmAnswer(
    accepted: bool, captured: bool, agrees: bool, reason: StopReason, retired: nat,
    nativeReturn: bool, callbackReturn: bool, dispatch: bool, x64Target: nat, resumePc: nat, resumeSp: nat,
    context: Context, memory: Bytes, access: Access)

  /** The same of one step of the x64 engine. */
  datatype X64Answer = X64Answer(
    captured: bool, agrees: bool, reason: StopReason, retired: nat, wasCall: bool, wasRet: bool,
    context: Context, memory: Bytes, access: Access)

  /** What the coordinator and the guest were like when a frame was pushed. */
  datatype Entry = Entry(
    resumePc: nat, sp: nat, originalX64Sp: nat, stage: Stage, cookie: nat, memory: Bytes, lower: seq<Frame>)

  predicate Registers(c: Context) { |c.x| == 31 }

  predicate ValidContext(c: Context) {
    c.intact && Registers(c) && c.teb != 0 && c.x[18] == c.teb && (c.isa == ISA_ARM64EC || c.isa == ISA_X64)
  }

  // ---- Words in memory ----

  predicate Present(m: Bytes, a: nat) {
    forall p: nat :: a <= p < a + WORD ==> p in m
  }

  predicate Covers(a: nat, p: nat) { a <= p < a + WORD }

  function WordBytes(m: Bytes, a: nat): (s: seq<Byte>)
    requires Present(m, a)
    ensures |s| == WORD
  {
    seq(WORD, i requires 0 <= i < WORD => m[a + i])
  }

  function WordAt(m: Bytes, a: nat): nat
    requires Present(m, a)
  {
    Decode(WordBytes(m, a))
  }

  function WithWord(m: Bytes, a: nat, v: nat): Bytes {
    map p | p in m :: if Covers(a, p) then Encode(v, WORD)[p - a] else m[p]
  }

  /** Writing back a word that was read puts every byte of it back. */
  lemma WordPutBack(before: Bytes, m: Bytes, a: nat, p: nat)
    requires Present(before, a) && p in m
    ensures Covers(a, p) ==> p in before
    ensures WithWord(m, a, WordAt(before, a))[p] == if Covers(a, p) then before[p] else m[p]
  {
    EncodeDecode(WordBytes(before, a));
  }

  /** The word at `a` is as it was in an earlier memory; everything else is untouched. */
  ghost predicate PutBack(before: Bytes, m: Bytes, m': Bytes, a: nat) {
    && m'.Keys == m.Keys
    && forall p :: p in m ==>
         && (Covers(a, p) ==> p in before && m'[p] == before[p])
         && (!Covers(a, p) ==> m'[p] == m[p])
  }

  lemma AllPutBack(before: Bytes, m: Bytes, a: nat)
    requires Present(before, a)
    ensures PutBack(before, m, WithWord(m, a, WordAt(before, a)), a)
  {
    forall p | p in m
      ensures Covers(a, p) ==> p in before
      ensures WithWord(m, a, WordAt(before, a))[p] == if Covers(a, p) then before[p] else m[p]
    {
      WordPutBack(before, m, a, p);
    }
  }

  lemma WordWritten(m: Bytes, a: nat, v: nat)
    requires Present(m, a) && v <= UINT64_MAX
    ensures Present(WithWord(m, a, v), a) && WordAt(WithWord(m, a, v), a) == v
    ensures WithWord(m, a, v).Keys == m.Keys && forall p :: p in m && !(a <= p < a + 8) ==> WithWord(m, a, v)[p] == m[p]
  {
    Capacities();
    DecodeEncode(v, WORD);
    assert WordBytes(WithWord(m, a, v), a) == Encode(v, WORD);
  }

  /** Bytes that can be read. */
  predicate Fetched(m: Bytes, access: Access, a: nat, n: nat) {
    forall p: nat :: a <= p < a + n ==> p in m && p in access.readable
  }

  /** A word inside one page that can be written back. */
  ghost predicate CanReplace(m: Bytes, access: Access, a: nat) {
    a % 4096 <= 4088 && a in access.writable && Present(m, a)
  }

  /** A word is its eight bytes, the lowest first. */
  lemma WordMeans(m: Bytes, a: nat)
    requires Present(m, a)
    ensures WordAt(m, a)
         == m[a] + 0x100 * (m[a + 1] as int) + 0x1_0000 * (m[a + 2] as int) + 0x100_0000 * (m[a + 3] as int)
            + 0x1_0000_0000 * (m[a + 4] as int) + 0x100_0000_0000 * (m[a + 5] as int)
            + 0x1_0000_0000_0000 * (m[a + 6] as int) + 0x100_0000_0000_0000 * (m[a + 7] as int)
  {
    DecodeEight(WordBytes(m, a));
  }

  // ---- Frames ----

  function TopCookie(frames: seq<Frame>, depth: nat): nat
    requires depth <= |frames|
  {
    if depth == 0 then 0 else frames[depth - 1].cookie
  }

  /** The stack discipline: which stage goes with which frames. */
  predicate Structured(stage: Stage, depth: nat, frames: seq<Frame>) {
    && |frames| == MAX_DEPTH && depth <= MAX_DEPTH
    && stage != Idle
    && (stage == Arm <==> depth == 0)
    && (stage == X64 ==> frames[depth - 1].callback == NoCallback)
    && (stage == ArmCallback ==> frames[depth - 1].callback != NoCallback)
    && (depth == 2 ==> frames[0].callback != NoCallback)
    && (forall i :: 0 <= i < depth ==> frames[i].recordWritten && (frames[i].resumeArmCallback <==> i == 1))
  }

  /** A frame holds what was there when it was pushed. */
  ghost predicate Remembers(f: Frame, e: Entry) {
    && f.armResumePc == e.resumePc && f.armResumeSp == e.sp && f.priorOriginalX64Sp == e.originalX64Sp
    && f.recordAddress + WORD == e.sp && Present(e.memory, f.recordAddress) && f.oldRecord == WordAt(e.memory, f.recordAddress)
    && f.recordAddress % PAGE_SIZE <= PAGE_SIZE - WORD
    && e.stage == if f.resumeArmCallback then ArmCallback else Arm
  }

  /** Every live frame remembers its push, and the frames below it have not changed since. */
  ghost predicate Bracketed(frames: seq<Frame>, depth: nat, entries: seq<Entry>) {
    && |frames| == MAX_DEPTH && depth <= MAX_DEPTH && |entries| == depth
    && forall i :: 0 <= i < depth ==>
         && Remembers(frames[i], entries[i])
         && entries[i].lower == frames[..i] && entries[i].cookie == TopCookie(frames, i)
  }

  /** A frame whose record can be put back and covers a byte. */
  ghost predicate PutsBack(m: Bytes, access: Access, f: Frame, p: nat) {
    CanReplace(m, access, f.recordAddress) && f.recordAddress <= p < f.recordAddress + 8
  }

  /** The outermost of frames `n .. depth` that puts a byte back. */
  ghost function Outermost(m: Bytes, access: Access, frames: seq<Frame>, n: nat, depth: nat, p: nat): (i: Option<nat>)
    requires n <= depth <= |frames|
    ensures i.Some? ==> n <= i.value < depth && PutsBack(m, access, frames[i.value], p)
    ensures forall j :: n <= j < (if i.Some? then i.value else depth) ==> !PutsBack(m, access, frames[j], p)
    decreases depth - n
  {
    if n == depth then None
    else if PutsBack(m, access, frames[n], p) then Some(n)
    else Outermost(m, access, frames, n + 1, depth, p)
  }

  ghost predicate ByteRestored(before: Bytes, after: Bytes, access: Access, frames: seq<Frame>, n: nat, depth: nat,
                               entries: seq<Entry>, p: nat)
    requires n <= depth <= |frames| && depth <= |entries| && p in before && p in after
  {
    var i := Outermost(before, access, frames, n, depth, p);
    if i.None? then after[p] == before[p]
    else p in entries[i.value].memory && after[p] == entries[i.value].memory[p]
  }

  /**
   Memory after the records of frames `n .. depth` were put back, the top one first: each byte is as it was
   before the outermost of them that covers it was pushed, even where records overlap, and even if other
   records could not be put back.
   */
  ghost predicate RecordsRestored(before: Bytes, after: Bytes, access: Access, frames: seq<Frame>, n: nat, depth: nat,
                                  entries: seq<Entry>)
    requires n <= depth <= |frames| && depth <= |entries|
  {
    && after.Keys == before.Keys
    && forall p :: p in before ==> ByteRestored(before, after, access, frames, n, depth, entries, p)
  }

  lemma NoneRestored(m: Bytes, access: Access, frames: seq<Frame>, depth: nat, entries: seq<Entry>)
    requires depth <= |frames| && depth <= |entries|
    ensures RecordsRestored(m, m, access, frames, depth, depth, entries)
  {
  }

  lemma SameReach(before: Bytes, last: Bytes, access: Access, frames: seq<Frame>, n: nat, depth: nat, entries: seq<Entry>, a: nat)
    requires n <= depth <= |frames| && depth <= |entries| && RecordsRestored(before, last, access, frames, n, depth, entries)
    ensures CanReplace(before, access, a) <==> CanReplace(last, access, a)
  {
    assert forall p :: p in before <==> p in last;
  }

  lemma OneMoreRestored(before: Bytes, last: Bytes, m: Bytes, access: Access, frames: seq<Frame>, n: nat, depth: nat,
                        entries: seq<Entry>)
    requires n < depth <= |frames| && depth <= |entries| && Remembers(frames[n], entries[n])
    requires RecordsRestored(before, last, access, frames, n + 1, depth, entries)
    requires m == if CanReplace(last, access, frames[n].recordAddress)
                  then WithWord(last, frames[n].recordAddress, frames[n].oldRecord) else last
    ensures RecordsRestored(before, m, access, frames, n, depth, entries)
  {
    forall p | p in before ensures p in m && ByteRestored(before, m, access, frames, n, depth, entries, p) {
      assert ByteRestored(before, last, access, frames, n + 1, depth, entries, p);
      WordPutBack(entries[n].memory, last, frames[n].recordAddress, p);
    }
  }

  // ---- What keeps the discipline ----

  ghost predicate Sound(stage: Stage, depth: nat, frames: seq<Frame>, entries: seq<Entry>) {
    Structured(stage, depth, frames) && Bracketed(frames, depth, entries)
  }

  /** The frames with the top one marked as having a frame above it. */
  function Marked(frames: seq<Frame>, depth: nat): seq<Frame>
    requires depth <= |frames|
  {
    if depth == 0 then frames else frames[depth - 1 := frames[depth - 1].(callbackNested := true)]
  }

  lemma MarkedSound(stage: Stage, depth: nat, frames: seq<Frame>, entries: seq<Entry>)
    requires Sound(stage, depth, frames, entries)
    ensures Sound(stage, depth, Marked(frames, depth), entries)
    ensures TopCookie(Marked(frames, depth), depth) == TopCookie(frames, depth)
  {
    var marked := Marked(frames, depth);
    forall i | 0 <= i < depth
      ensures Remembers(marked[i], entries[i]) && entries[i].lower == marked[..i] && entries[i].cookie == TopCookie(marked, i)
    {
      assert Remembers(frames[i], entries[i]) && entries[i].lower == frames[..i];
    }
  }

  lemma UnusedSound(stage: Stage, depth: nat, frames: seq<Frame>, entries: seq<Entry>, f: Frame)
    requires Sound(stage, depth, frames, entries) && depth < MAX_DEPTH
    ensures Sound(stage, depth, frames[depth := f], entries)
  {
    forall i | 0 <= i < depth ensures entries[i].lower == frames[depth := f][..i] {
      assert entries[i].lower == frames[..i];
    }
  }

  lemma NoFramesInArm(stage: Stage, depth: nat, frames: seq<Frame>, entries: seq<Entry>)
    requires Sound(stage, depth, frames, entries)
    ensures |frames| == MAX_DEPTH && |entries| == depth <= MAX_DEPTH && (stage == Arm <==> depth == 0) && stage != Idle
    ensures stage == X64 ==> frames[depth - 1].callback == NoCallback
    ensures stage == ArmCallback ==> frames[depth - 1].callback != NoCallback
  {
  }

  lemma NewFrameRemembers(f: Frame, e: Entry)
    requires f.armResumePc == e.resumePc && f.armResumeSp == e.sp && f.priorOriginalX64Sp == e.originalX64Sp
    requires f.recordAddress + WORD == e.sp && Present(e.memory, f.recordAddress) && f.oldRecord == WordAt(e.memory, f.recordAddress)
    requires f.recordAddress % PAGE_SIZE <= PAGE_SIZE - WORD
    requires e.stage == if f.resumeArmCallback then ArmCallback else Arm
    ensures Remembers(f, e)
  {
  }

  lemma PushSound(stage: Stage, depth: nat, frames: seq<Frame>, entries: seq<Entry>, f: Frame, e: Entry)
    requires Sound(stage, depth, frames, entries) && depth < MAX_DEPTH && (stage == Arm || stage == ArmCallback)
    requires f.callback == NoCallback && f.recordWritten && (f.resumeArmCallback <==> stage == ArmCallback)
    requires Remembers(f, e) && e.lower == frames[..depth] && e.cookie == TopCookie(frames, depth)
    ensures Sound(X64, depth + 1, frames[depth := f], entries + [e])
  {
    var pushed, more := frames[depth := f], entries + [e];
    assert pushed[..depth] == frames[..depth];
    forall i | 0 <= i < depth + 1
      ensures Remembers(pushed[i], more[i]) && more[i].lower == pushed[..i] && more[i].cookie == TopCookie(pushed, i)
    {
      if i < depth {
        assert Remembers(frames[i], entries[i]) && entries[i].lower == frames[..i];
      }
    }
  }

  lemma TopFrame(stage: Stage, depth: nat, frames: seq<Frame>, entries: seq<Entry>)
    requires Sound(stage, depth, frames, entries) && depth > 0
    ensures Remembers(frames[depth - 1], entries[depth - 1])
    ensures entries[depth - 1].lower == frames[..depth - 1] && entries[depth - 1].cookie == TopCookie(frames, depth - 1)
    ensures frames[depth - 1].recordWritten
  {
  }

  /** The guest back where a push was asked for, with the value x64 code returned where the caller looks for it. */
  ghost function Returned(c: Context, e: Entry): Context
    requires Registers(c)
  {
    Context(c.x[0 := c.x[8]][18 := c.teb], e.sp, e.resumePc, 1, c.teb, e.originalX64Sp, e.cookie, NoStop, c.intact)
  }

  lemma AllWritten(stage: Stage, depth: nat, frames: seq<Frame>, n: nat)
    requires Structured(stage, depth, frames) && n < depth
    ensures frames[n].recordWritten
  {
  }

  lemma PopSound(stage: Stage, depth: nat, frames: seq<Frame>, entries: seq<Entry>)
    requires Sound(stage, depth, frames, entries) && depth > 0
    ensures Sound(if frames[depth - 1].resumeArmCallback then ArmCallback else Arm, depth - 1, frames[depth - 1 := NO_FRAME],
                  entries[..depth - 1])
    ensures frames[depth - 1 := NO_FRAME][..depth - 1] == frames[..depth - 1]
  {
    var popped := frames[depth - 1 := NO_FRAME];
    forall i | 0 <= i < depth - 1
      ensures Remembers(popped[i], entries[i]) && entries[i].lower == popped[..i] && entries[i].cookie == TopCookie(popped, i)
    {
      assert Remembers(frames[i], entries[i]) && entries[i].lower == frames[..i];
    }
  }

  /** The same frame as far as its push is concerned. */
  predicate SamePush(f: Frame, g: Frame) {
    && g.cookie == f.cookie && g.armResumePc == f.armResumePc && g.armResumeSp == f.armResumeSp
    && g.priorOriginalX64Sp == f.priorOriginalX64Sp && g.recordAddress == f.recordAddress && g.oldRecord == f.oldRecord
    && g.recordWritten == f.recordWritten && g.resumeArmCallback == f.resumeArmCallback
  }

  lemma CallbackSound(stage: Stage, stage': Stage, depth: nat, frames: seq<Frame>, entries: seq<Entry>, g: Frame)
    requires Sound(stage, depth, frames, entries) && depth > 0 && SamePush(frames[depth - 1], g)
    requires stage' == if g.callback == NoCallback then X64 else ArmCallback
    ensures Sound(stage', depth, frames[depth - 1 := g], entries)
    ensures TopCookie(frames[depth - 1 := g], depth) == TopCookie(frames, depth)
  {
    var changed := frames[depth - 1 := g];
    forall i | 0 <= i < depth
      ensures Remembers(changed[i], entries[i]) && entries[i].lower == changed[..i] && entries[i].cookie == TopCookie(changed, i)
    {
      assert Remembers(frames[i], entries[i]) && entries[i].lower == frames[..i];
    }
  }

  class HybridRuntime {
    const sentinel: nat
    const checkerHelper: nat
    const dispatchCallHelper: nat
    const dispatchJumpHelper: nat
    const dispatchRetHelper: nat
    const hostReturnSentinel: nat
    const svcDelivery: bool
    const maxBudget: nat

    /** Where control goes for an address, if anywhere. */
    const targets: nat -> Option<Target>

    var context: Context
    var memory: Bytes
    var access: Access

    var active: bool
    var stage: Stage
    var depth: nat
    var frames: seq<Frame>
    var nativeReturnPc: nat
    var pendingX64Target: nat
    var pendingArmResumePc: nat
    var pendingArmResumeSp: nat
    var pendingDispatch: bool
    var pendingCallbackReturn: bool
    var pendingNativeReturn: bool

    var generation: nat
    var running: bool
    var framePushes: nat
    var framePops: nat
    var maximumDepth: nat
    var armRetired: nat
    var x64Retired: nat
    var lastReason: StopReason

    /** What each live frame was pushed on top of. */
    ghost var entries: seq<Entry>

    constructor (sentinel: nat, checker: nat, dispatchCall: nat, dispatchJump: nat, dispatchRet: nat, hostReturn: nat,
                 svcDelivery: bool, maxBudget: nat, targets: nat -> Option<Target>, context: Context)
      requires sentinel <= UINT64_MAX
      ensures Valid() && !active && !running
    {
      this.sentinel, checkerHelper, dispatchCallHelper, dispatchJumpHelper := sentinel, checker, dispatchCall, dispatchJump;
      dispatchRetHelper, hostReturnSentinel := dispatchRet, hostReturn;
      this.svcDelivery, this.maxBudget, this.targets := svcDelivery, maxBudget, targets;
      this.context, memory, access := context, map[], Access(iset{}, iset{}, iset{});
      active, stage, depth, frames := false, Idle, 0, [NO_FRAME, NO_FRAME];
      nativeReturnPc, pendingX64Target, pendingArmResumePc, pendingArmResumeSp := 0, 0, 0, 0;
      pendingDispatch, pendingCallbackReturn, pendingNativeReturn := false, false, false;
      generation, running, lastReason := 0, false, NoStop;
      framePushes, framePops, maximumDepth, armRetired, x64Retired := 0, 0, 0, 0, 0;
      entries := [];
    }

    ghost predicate Valid()
      reads this
    {
      && sentinel <= UINT64_MAX && |frames| == MAX_DEPTH
      && (active ==> Sound(stage, depth, frames, entries))
      && (!active ==> depth == 0 && entries == [])
    }

    /** Instruction set and cookie are those of the stage and of the top frame. */
    predicate Tagged()
      reads this
    {
      && depth <= |frames|
      && context.isa == (if stage == X64 then ISA_X64 else ISA_ARM64EC)
      && context.cookie == TopCookie(frames, depth)
    }

    // ---- The world outside ----

    /** An aligned or unaligned word inside one page, if the page can be written. */
    method ReplaceRecord(address: nat, value: nat) returns (ok: bool, prior: nat)
      modifies this`memory
      ensures ok <==> CanReplace(old(memory), access, address)
      ensures !ok ==> memory == old(memory)
      ensures ok ==> address % PAGE_SIZE <= PAGE_SIZE - WORD
      ensures ok ==> Present(old(memory), address) && prior == WordAt(old(memory), address)
      ensures ok ==> memory == WithWord(old(memory), address, value)
    {
      prior := 0;
      if address % PAGE_SIZE > PAGE_SIZE - WORD || address !in access.writable || !Present(memory, address) {
        return false, prior;
      }
      prior := WordAt(memory, address);
      memory := WithWord(memory, address, value);
      ok := true;
    }

    method ReadWord(address: nat) returns (value: Option<nat>)
      ensures value == if Fetched(memory, access, address, 8) then Some(WordAt(memory, address)) else None
    {
      if !Fetched(memory, access, address, WORD) {
        return None;
      }
      value := Some(WordAt(memory, address));
    }

    // ---- The boundary callback of the ARM64EC engine ----

    /** Where control goes for an address, if that is x64 code. */
    predicate IsX64(va: nat) {
      targets(va).Some? && targets(va).value.kind == X64Boundary
    }

    /** An address the call checker lets through as it is, or with an exit thunk that is no x64 code itself. */
    ghost predicate Checkable(c: Context)
      requires Registers(c)
    {
      && ValidContext(c) && c.isa == 1 && targets(c.x[11]).Some?
      && (IsX64(c.x[11]) ==> targets(c.x[10]).Some? && !IsX64(c.x[10]))
    }

    /** The guest stands where a callback of the top frame has to end. */
    ghost predicate AtCallbackEnd(c: Context)
      reads this
      requires Registers(c) && |frames| == MAX_DEPTH && depth <= MAX_DEPTH
    {
      && stage == ArmCallback && depth > 0 && frames[depth - 1].callback != NoCallback
      && c.cookie == frames[depth - 1].cookie && c.x[30] == frames[depth - 1].callbackResumePc
      && c.sp == frames[depth - 1].callbackArmEntrySp && c.originalX64Sp == frames[depth - 1].callbackPreCallSp
    }

    ghost predicate DispatchHelper(pc: nat) {
      pc == dispatchCallHelper || (dispatchJumpHelper != 0 && pc == dispatchJumpHelper)
    }

    ghost predicate AtHome(pc: nat)
      reads this
    {
      depth == 0 && stage == Arm && pc == nativeReturnPc
    }

    /**
     `generic_boundary`, called by the ARM64EC engine at any address with any registers.  It only raises
     one of three flags, each under its own conditions, and never touches frames, depth or stage.
     */
    method Boundary(pc: nat) returns (action: BoundaryAction)
      requires Valid() && active && Registers(context)
      modifies this`context, this`pendingX64Target, this`pendingArmResumePc, this`pendingArmResumeSp,
               this`pendingDispatch, this`pendingCallbackReturn, this`pendingNativeReturn
      ensures Registers(context)
      ensures old(context.x[18] != context.teb || (stage != Arm && stage != ArmCallback)) ==> action == Fail
      ensures old(context.x[18] == context.teb && (stage == Arm || stage == ArmCallback)) ==>
                && (pc == checkerHelper ==> action == if Checkable(old(context)) then Resume else Fail)
                && (pc != checkerHelper && DispatchHelper(pc) ==>
                      action == if old(!pendingDispatch && depth < 2 && IsX64(context.x[9])) then Stop else Fail)
                && (pc != checkerHelper && !DispatchHelper(pc) && pc == dispatchRetHelper ==>
                      action == if old(!pendingCallbackReturn && AtCallbackEnd(context)) then Stop else Fail)
                && (pc != checkerHelper && !DispatchHelper(pc) && pc != dispatchRetHelper ==>
                      action == if old(AtHome(pc)) then Stop else NotHandled)
      ensures action == Resume ==>
                var x := old(context).x;
                context == old(context).(
                  pc := x[30], x := if IsX64(x[11]) then x[9 := x[11]][11 := targets(x[10]).value.resolved] else x)
      ensures action != Resume ==> context == old(context)
      ensures pendingDispatch == (old(pendingDispatch) || (action == Stop && DispatchHelper(pc)))
      ensures pendingCallbackReturn ==
                (old(pendingCallbackReturn) || (action == Stop && !DispatchHelper(pc) && pc == dispatchRetHelper))
      ensures pendingNativeReturn ==
                (old(pendingNativeReturn) || (action == Stop && !DispatchHelper(pc) && pc != dispatchRetHelper))
      ensures action == Stop && DispatchHelper(pc) ==>
                && pendingX64Target == targets(context.x[9]).value.resolved
                && pendingArmResumePc == context.x[30] && pendingArmResumeSp == context.sp
      ensures !(action == Stop && DispatchHelper(pc)) ==>
                && pendingX64Target == old(pendingX64Target) && pendingArmResumePc == old(pendingArmResumePc)
                && pendingArmResumeSp == old(pendingArmResumeSp)
    {
      hide Sound;
      NoFramesInArm(stage, depth, frames, entries);
      if context.x[18] != context.teb || (stage != Arm && stage != ArmCallback) {
        return Fail;
      }
      if pc == checkerHelper {
        action := CheckCall();
        return;
      }
      if pc == dispatchCallHelper || (dispatchJumpHelper != 0 && pc == dispatchJumpHelper) {
        var target := targets(context.x[9]);
        if pendingDispatch || depth >= MAX_DEPTH || target.None? || target.value.kind != X64Boundary {
          return Fail;
        }
        pendingX64Target := target.value.resolved;
        pendingArmResumePc := context.x[30];
        pendingArmResumeSp := context.sp;
        pendingDispatch := true;
        return Stop;
      }
      if pc == dispatchRetHelper {
        if stage != ArmCallback || depth == 0 || frames[depth - 1].callback == NoCallback || pendingCallbackReturn
           || context.cookie != frames[depth - 1].cookie || context.x[30] != frames[depth - 1].callbackResumePc
           || context.sp != frames[depth - 1].callbackArmEntrySp
           || context.originalX64Sp != frames[depth - 1].callbackPreCallSp
        {
          return Fail;
        }
        pendingCallbackReturn := true;
        return Stop;
      }
      if depth == 0 && stage == Arm && pc == nativeReturnPc {
        pendingNativeReturn := true;
        return Stop;
      }
      action := NotHandled;
    }

    /** The call checker: an x64 target is replaced by its exit thunk, with the target kept in x9. */
    method CheckCall() returns (action: BoundaryAction)
      requires Registers(context)
      modifies this`context
      ensures action == if Checkable(old(context)) then Resume else Fail
      ensures action == Fail ==> context == old(context)
      ensures action == Resume ==>
                var x := old(context).x;
                context == old(context).(
                  pc := x[30], x := if IsX64(x[11]) then x[9 := x[11]][11 := targets(x[10]).value.resolved] else x)
    {
      if !ValidContext(context) || context.isa != ISA_ARM64EC {
        return Fail;
      }
      var x := context.x;
      var target := targets(x[11]);
      if target.None? {
        return Fail;
      }
      if target.value.kind == X64Boundary {
        var thunk := targets(x[10]);
        if thunk.None? || thunk.value.kind == X64Boundary {
          return Fail;
        }
        x := x[9 := x[11]][11 := thunk.value.resolved];
      }
      context := context.(x := x, pc := context.x[30]);
      action := Resume;
    }

    // ---- Engines ----

    /** An answer is about the guest and the flags as the engine left them. */
    ghost predicate Told(a: ArmAnswer)
      reads this
    {
      && a.context == context && a.memory == memory && a.access == access && a.nativeReturn == pendingNativeReturn
      && a.callbackReturn == pendingCallbackReturn && a.dispatch == pendingDispatch && a.x64Target == pendingX64Target
      && a.resumePc == pendingArmResumePc && a.resumeSp == pendingArmResumeSp
    }

    /** The ARM64EC engine: any registers, any memory, any number of boundary calls, any stop. */
    method RunArm() returns (answer: ArmAnswer)
      requires Valid() && active
      modifies this`context, this`memory, this`access, this`pendingX64Target, this`pendingArmResumePc, this`pendingArmResumeSp,
               this`pendingDispatch, this`pendingCallbackReturn, this`pendingNativeReturn
      ensures Valid() && Registers(context)
      ensures pendingNativeReturn && !old(pendingNativeReturn) ==> depth == 0
      ensures Told(answer)
    {
      hide Sound, Checkable, AtCallbackEnd, DispatchHelper, IsX64;
      var calls: nat := *;
      context := AnyContext();
      memory, access := *, *;
      while calls > 0
        invariant Valid() && Registers(context)
        invariant pendingNativeReturn && !old(pendingNativeReturn) ==> depth == 0
        decreases calls
      {
        var pc: nat := *;
        var action := Boundary(pc);
        context := AnyContext();
        memory, access := *, *;
        calls := calls - 1;
      }
      answer := *;
      answer := answer.(
        nativeReturn := pendingNativeReturn, callbackReturn := pendingCallbackReturn, dispatch := pendingDispatch,
        x64Target := pendingX64Target, resumePc := pendingArmResumePc, resumeSp := pendingArmResumeSp,
        context := context, memory := memory, access := access);
    }

    method AnyContext() returns (c: Context)
      ensures Registers(c)
    {
      c := *;
      if |c.x| != 31 {
        c := c.(x := seq(31, _ => 0));
      }
    }

    /** The x64 engine, one instruction: anything but the instruction-set tag and the cookie may change. */
    method RunX64() returns (answer: X64Answer)
      modifies this`context, this`memory, this`access
      ensures Registers(context) && context.isa == old(context).isa && context.cookie == old(context).cookie
      ensures answer.context == context && answer.memory == memory && answer.access == access
    {
      var c := AnyContext();
      context := c.(isa := context.isa, cookie := context.cookie);
      memory, access := *, *;
      answer := *;
      answer := answer.(context := context, memory := memory, access := access);
    }

    // ---- Frames ----

    /** A push that can be made: room for a frame, the stack where it is said to be, x64 code, and a word that can be replaced. */
    ghost predicate Pushable(c: Context, m: Bytes, access: Access, depth: nat, targetVa: nat, resumeSp: nat) {
      && depth < 2 && c.sp >= 8 && c.sp == resumeSp && IsX64(targetVa)
      && c.sp - 8 in access.supported && CanReplace(m, access, c.sp - 8)
    }

    /** The guest at x64 code, below its new return address. */
    ghost function Pushed(c: Context, targetVa: nat, cookie: nat): Context
      requires c.sp >= 8 && IsX64(targetVa)
    {
      c.(sp := c.sp - 8, pc := targets(targetVa).value.resolved, isa := 2, cookie := cookie, stopReason := NoStop)
    }

    /**
     `generic_push_x64`: the guest continues at an x64 target, with the sentinel where its return address
     goes.  The frame remembers the word it overwrote and what to go back to.
     */
    method PushX64(targetVa: nat, resumePc: nat, resumeSp: nat) returns (ok: bool)
      requires Valid() && active && (stage == Arm || stage == ArmCallback)
      modifies this`context, this`memory, this`stage, this`depth, this`frames, this`generation, this`framePushes,
               this`maximumDepth, this`entries
      ensures Valid() && ok == old(Pushable(context, memory, access, depth, targetVa, resumeSp))
      ensures !ok ==> depth == old(depth) && framePushes == old(framePushes) && stage == old(stage) && memory == old(memory)
                      && context == old(context) && entries == old(entries)
      ensures ok ==> depth == old(depth) + 1 && framePushes == old(framePushes) + 1 && stage == X64 && Tagged()
      ensures ok ==>
                && IsX64(targetVa) && old(context).sp >= 8 && Present(old(memory), old(context).sp - 8)
                && generation == (if old(generation) == 0xFFFF_FFFF_FFFF_FFFF then 1 else old(generation) + 1)
                && context == Pushed(old(context), targetVa, generation)
                && frames[old(depth)] == Frame(generation, resumePc, resumeSp, old(context).originalX64Sp, old(context).sp - 8,
                                               WordAt(old(memory), old(context).sp - 8), 0, 0, 0, 0, NoCallback, true,
                                               old(stage) == ArmCallback, false)
                && (old(depth) == 1 ==> frames[0] == old(frames)[0].(callbackNested := true))
      ensures ok ==> Present(memory, context.sp) && WordAt(memory, context.sp) == sentinel
      ensures ok ==> entries == old(entries) + [Entry(
                resumePc, old(context).sp, old(context).originalX64Sp, old(stage), TopCookie(old(frames), old(depth)),
                old(memory), frames[..old(depth)])]
      ensures ok ==> memory == WithWord(old(memory), context.sp, sentinel)
    {
      hide Sound, Present, WithWord, WordAt, Remembers, CanReplace;
      var resumeArmCallback := stage == ArmCallback;
      var target := targets(targetVa);
      if depth >= MAX_DEPTH || context.sp < WORD || context.sp != resumeSp || target.None? || target.value.kind != X64Boundary {
        return false;
      }
      if context.sp - WORD !in access.supported {
        return false;
      }
      ghost var before, cookie := memory, TopCookie(frames, depth);
      MarkParent();
      var address := context.sp - WORD;
      var written, prior := ReplaceRecord(address, sentinel);
      if !written {
        UnusedSound(stage, depth, frames, entries, NO_FRAME);
        frames := frames[depth := NO_FRAME];
        return false;
      }
      WordWritten(before, address, sentinel);
      var frame := Frame(generation, resumePc, resumeSp, context.originalX64Sp, address, prior, 0, 0, 0, 0, NoCallback, true,
                         resumeArmCallback, false);
      ghost var e := Entry(resumePc, context.sp, context.originalX64Sp, stage, cookie, before, frames[..depth]);
      NewFrameRemembers(frame, e);
      GoToX64(frame, e, target.value.resolved);
      ok := true;
    }

    /** The frame below knows that it has one above it, and the next cookie is taken. */
    method MarkParent()
      requires Valid() && active && (stage == Arm || stage == ArmCallback)
      modifies this`frames, this`generation
      ensures Valid() && |frames| == |old(frames)| == MAX_DEPTH && TopCookie(frames, depth) == TopCookie(old(frames), depth)
      ensures depth > 0 <==> stage == ArmCallback
      ensures depth == 1 ==> frames[0] == old(frames)[0].(callbackNested := true)
      ensures generation == if old(generation) == 0xFFFF_FFFF_FFFF_FFFF then 1 else old(generation) + 1
    {
      hide Sound;
      NoFramesInArm(stage, depth, frames, entries);
      MarkedSound(stage, depth, frames, entries);
      if stage == ArmCallback {
        frames := frames[depth - 1 := frames[depth - 1].(callbackNested := true)];
      }
      generation := if generation == UINT64_MAX then 1 else generation + 1;
    }

    /** The new frame on top, and the guest at its x64 target. */
    method GoToX64(frame: Frame, ghost e: Entry, pc: nat)
      requires Valid() && active && (stage == Arm || stage == ArmCallback) && depth < MAX_DEPTH
      requires frame.callback == NoCallback && frame.recordWritten && (frame.resumeArmCallback <==> stage == ArmCallback)
      requires Remembers(frame, e) && e.lower == frames[..depth] && e.cookie == TopCookie(frames, depth)
      modifies this`context, this`stage, this`depth, this`frames, this`framePushes, this`maximumDepth, this`entries
      ensures Valid() && Tagged() && stage == X64 && depth == old(depth) + 1 && framePushes == old(framePushes) + 1
      ensures entries == old(entries) + [e] && frames == old(frames)[old(depth) := frame]
      ensures context == old(context).(sp := frame.recordAddress, pc := pc, isa := ISA_X64, cookie := frame.cookie, stopReason := NoStop)
    {
      hide Sound, Remembers;
      NoFramesInArm(stage, depth, frames, entries);
      PushSound(stage, depth, frames, entries, frame, e);
      frames := frames[depth := frame];
      entries := entries + [e];
      depth := depth + 1;
      framePushes := framePushes + 1;
      if depth > maximumDepth {
        maximumDepth := depth;
      }
      context := context.(sp := frame.recordAddress, pc := pc, isa := ISA_X64, cookie := frame.cookie, stopReason := NoStop);
      stage := X64;
    }

    /** The guest stands at the top frame's return, and the word the frame overwrote can be put back. */
    ghost predicate Poppable(c: Context, m: Bytes, access: Access)
      reads this
    {
      && 0 < depth <= |frames| && c.sp == frames[depth - 1].recordAddress + 8
      && CanReplace(m, access, frames[depth - 1].recordAddress)
    }

    /**
     `generic_pop_x64`: back where the push was asked for.  Whatever the engines did in between, program
     counter, stack pointer, recorded x64 stack pointer, cookie and stage are those of the push, the frames
     below are those left by it, the overwritten word is back, and the result of the x64 code is in x0.
     */
    method PopX64() returns (ok: bool)
      requires Valid() && active && Registers(context)
      modifies this`context, this`memory, this`stage, this`depth, this`frames, this`framePops, this`entries
      ensures Valid() && Registers(context) && ok == old(Poppable(context, memory, access))
      ensures !ok ==> depth == old(depth) && framePops == old(framePops) && stage == old(stage) && context == old(context)
                      && memory == old(memory) && frames == old(frames) && entries == old(entries)
      ensures ok ==> depth == old(depth) - 1 && framePops == old(framePops) + 1 && Tagged()
      ensures ok ==> entries == old(entries)[..depth] && frames == old(frames)[depth := NO_FRAME]
      ensures ok ==>
                var e := old(entries)[depth];
                && context == Returned(old(context), e) && stage == e.stage && frames[..depth] == e.lower
                && old(context).sp == e.sp
                && e.sp >= WORD && PutBack(e.memory, old(memory), memory, e.sp - WORD)
    {
      hide Sound, Present, WithWord, WordAt, PutBack, CanReplace;
      NoFramesInArm(stage, depth, frames, entries);
      if depth == 0 {
        return false;
      }
      var frame := frames[depth - 1];
      ghost var e, before := entries[depth - 1], memory;
      TopFrame(stage, depth, frames, entries);
      PopSound(stage, depth, frames, entries);
      if !frame.recordWritten || context.sp != frame.recordAddress + WORD {
        return false;
      }
      var restored, prior := ReplaceRecord(frame.recordAddress, frame.oldRecord);
      if !restored {
        return false;
      }
      AllPutBack(e.memory, before, frame.recordAddress);
      frames := frames[depth - 1 := NO_FRAME];
      depth := depth - 1;
      entries := entries[..depth];
      framePops := framePops + 1;
      var x := context.x[0 := context.x[8]];
      context := context.(
        x := x[18 := context.teb], pc := frame.armResumePc, sp := frame.armResumeSp,
        originalX64Sp := frame.priorOriginalX64Sp, isa := ISA_ARM64EC,
        cookie := if depth == 0 then 0 else frames[depth - 1].cookie, stopReason := NoStop);
      stage := if frame.resumeArmCallback then ArmCallback else Arm;
      ok := true;
    }

    // ---- Callbacks ----

    /**
     Where the thunk of an ARM64EC function starts: as far behind the four bytes in front of the function as
     they say, in units of four.
     */
    ghost function EntryThunk(m: Bytes, access: Access, descriptor: nat): Option<Target> {
      if descriptor > 0xFFFF_FFFF_FFFF_FFFB || !Fetched(m, access, descriptor, 4) then None
      else
        var word := m[descriptor] + 0x100 * (m[descriptor + 1] as int) + 0x1_0000 * (m[descriptor + 2] as int)
                    + 0x100_0000 * (m[descriptor + 3] as int);
        if descriptor + 4 + word / 4 * 4 > 0xFFFF_FFFF_FFFF_FFFF then None else targets(descriptor + 4 + word / 4 * 4)
    }

    /** `hybrid_descriptor_resolve`. */
    method ResolveDescriptor(va: nat) returns (target: Option<Target>)
      ensures target == EntryThunk(memory, access, va)
    {
      if va > UINT64_MAX - 4 || !Fetched(memory, access, va, 4) {
        return None;
      }
      var bytes := [memory[va], memory[va + 1], memory[va + 2], memory[va + 3]];
      DecodeFour(bytes);
      var encoded := Decode(bytes);
      var functionVa := va + 4;
      var offset := encoded - encoded % 4;
      if functionVa > UINT64_MAX - offset {
        return None;
      }
      target := targets(functionVa + offset);
    }

    /** x64 code that has reached ARM64EC code, with its return address where a call or a tail transfer leaves it. */
    ghost predicate Enterable(c: Context, m: Bytes, access: Access, f: Frame, target: Target, preStepSp: nat, wasCall: bool) {
      && target.resolved >= 4 && Fetched(m, access, c.sp, 8)
      && (if wasCall then c.sp + 8 == preStepSp else c.sp == f.recordAddress && WordAt(m, c.sp) == sentinel)
      && EntryThunk(m, access, target.resolved - 4).Some?
      && EntryThunk(m, access, target.resolved - 4).value.kind != X64Boundary
    }

    /** The guest at the thunk, on an aligned stack, with what the thunk needs in x4, x9 and x30. */
    ghost function Entered(c: Context, target: nat, thunk: nat, resume: nat): Context
      requires Registers(c)
    {
      c.(x := c.x[30 := resume][4 := c.sp + 8][9 := target][18 := c.teb], originalX64Sp := c.sp + 8,
         sp := c.sp + 8 - (c.sp + 8) % 16, pc := thunk, isa := 1, stopReason := NoStop)
    }

    /** `generic_enter_callback`: x64 code has reached an ARM64EC target, by a call or by a tail transfer. */
    method EnterCallback(target: Target, preStepSp: nat, wasCall: bool) returns (ok: bool)
      requires Valid() && active && stage == X64 && Tagged() && Registers(context)
      modifies this`context, this`stage, this`frames
      ensures Valid() && Registers(context) && 0 < depth <= |frames|
      ensures ok == old(Enterable(context, memory, access, frames[depth - 1], target, preStepSp, wasCall))
      ensures !ok ==> stage == old(stage)
      ensures ok ==> stage == ArmCallback && Tagged()
      ensures ok ==>
                var c := old(context);
                var resume := if wasCall then WordAt(memory, c.sp) else sentinel;
                && context == Entered(c, target.resolved, EntryThunk(memory, access, target.resolved - 4).value.resolved, resume)
                && frames == old(frames)[depth - 1 := old(frames)[depth - 1].(
                     callback := if wasCall then Call else Tail, callbackResumePc := resume, callbackPreCallSp := c.sp + 8,
                     callbackArmEntrySp := c.sp + 8 - (c.sp + 8) % 16, callbackPriorOriginalX64Sp := c.originalX64Sp)]
    {
      hide Sound, WordAt, EntryThunk, Fetched;
      NoFramesInArm(stage, depth, frames, entries);
      if frames[depth - 1].callback != NoCallback || target.resolved < 4 {
        return false;
      }
      var frame, originalSp := ReturnRecord(preStepSp, wasCall);
      if frame.None? {
        return false;
      }
      var thunk := ResolveDescriptor(target.resolved - 4);
      if thunk.None? || thunk.value.kind == X64Boundary {
        Withdraw(frame.value.(callback := NoCallback));
        return false;
      }
      Land(frame.value, originalSp, target.resolved, thunk.value.resolved);
      ok := true;
    }

    /** No callback after all. */
    method Withdraw(frame: Frame)
      requires Valid() && active && stage == X64 && 0 < depth <= |frames|
      requires frame.callback == NoCallback && SamePush(frames[depth - 1], frame)
      modifies this`frames
      ensures Valid() && depth <= |frames|
    {
      hide Sound;
      NoFramesInArm(stage, depth, frames, entries);
      CallbackSound(stage, X64, depth, frames, entries, frame);
      frames := frames[depth - 1 := frame];
    }

    /** Where the callback returns to, and the x64 stack pointer it must find again. */
    method ReturnRecord(preStepSp: nat, wasCall: bool) returns (frame: Option<Frame>, originalSp: nat)
      requires 0 < depth <= |frames|
      modifies this`context
      ensures context == old(context).(sp := context.sp)
      ensures frame.Some? <==>
                && Fetched(memory, access, old(context).sp, 8)
                && (if wasCall then old(context).sp + 8 == preStepSp
                    else old(context).sp == frames[depth - 1].recordAddress && WordAt(memory, old(context).sp) == sentinel)
      ensures frame.Some? ==>
                && originalSp == old(context).sp + 8
                && frame.value == frames[depth - 1].(
                     callback := if wasCall then Call else Tail,
                     callbackResumePc := if wasCall then WordAt(memory, old(context).sp) else sentinel)
    {
      hide WordAt;
      originalSp := preStepSp;
      if wasCall {
        frame := CallRecord(preStepSp);
      } else {
        frame := TailRecord();
        if frame.Some? {
          originalSp := context.sp + WORD;
          context := context.(sp := originalSp);
        }
      }
    }

    /** A call left its return address just below where the stack pointer was. */
    method CallRecord(preStepSp: nat) returns (frame: Option<Frame>)
      requires 0 < depth <= |frames|
      ensures frame.Some? <==> context.sp + 8 == preStepSp && Fetched(memory, access, context.sp, 8)
      ensures frame.Some? ==> frame.value == frames[depth - 1].(callback := Call, callbackResumePc := WordAt(memory, context.sp))
    {
      if preStepSp < WORD || context.sp != preStepSp - WORD {
        return None;
      }
      var record := ReadWord(context.sp);
      if record.None? {
        return None;
      }
      frame := Some(frames[depth - 1].(callback := Call, callbackResumePc := record.value));
    }

    /** A tail transfer leaves the coordinator's own record as the return address. */
    method TailRecord() returns (frame: Option<Frame>)
      requires 0 < depth <= |frames|
      ensures frame.Some? <==>
                && context.sp == frames[depth - 1].recordAddress && Fetched(memory, access, context.sp, 8)
                && WordAt(memory, context.sp) == sentinel
      ensures frame.Some? ==> frame.value == frames[depth - 1].(callback := Tail, callbackResumePc := sentinel)
    {
      if context.sp != frames[depth - 1].recordAddress {
        return None;
      }
      var record := ReadWord(context.sp);
      if record != Some(sentinel) {
        return None;
      }
      frame := Some(frames[depth - 1].(callback := Tail, callbackResumePc := sentinel));
    }

    /** The guest at the entry thunk of a callback, on an aligned stack. */
    method Land(frame: Frame, originalSp: nat, targetVa: nat, thunkPc: nat)
      requires Valid() && active && stage == X64 && Registers(context) && depth > 0 && context.cookie == TopCookie(frames, depth)
      requires frame.callback != NoCallback && SamePush(frames[depth - 1], frame)
      modifies this`context, this`stage, this`frames
      ensures Valid() && stage == ArmCallback && Tagged()
      ensures frames == old(frames)[depth - 1 := frame.(
                callbackPreCallSp := originalSp, callbackArmEntrySp := originalSp - originalSp % 16,
                callbackPriorOriginalX64Sp := old(context).originalX64Sp)]
      ensures context == old(context).(
                x := old(context).x[30 := frame.callbackResumePc][4 := originalSp][9 := targetVa][18 := old(context).teb],
                originalX64Sp := originalSp, sp := originalSp - originalSp % 16, pc := thunkPc, isa := 1, stopReason := NoStop)
    {
      hide Sound;
      NoFramesInArm(stage, depth, frames, entries);
      var landed := frame.(callbackPreCallSp := originalSp, callbackArmEntrySp := originalSp - originalSp % 16,
                           callbackPriorOriginalX64Sp := context.originalX64Sp);
      CallbackSound(stage, ArmCallback, depth, frames, entries, landed);
      frames := frames[depth - 1 := landed];
      var x := context.x[30 := frame.callbackResumePc][4 := originalSp][9 := targetVa][18 := context.teb];
      context := context.(x := x, originalX64Sp := originalSp, sp := landed.callbackArmEntrySp, pc := thunkPc,
                          isa := ISA_ARM64EC, stopReason := NoStop);
      stage := ArmCallback;
    }

    /** A finished callback: behind a call nothing more is needed, a tail transfer must give the stack word back. */
    ghost predicate Finishable(m: Bytes, access: Access, depth: nat, frames: seq<Frame>) {
      && 0 < depth <= |frames|
      && (frames[depth - 1].callback == Tail ==> CanReplace(m, access, frames[depth - 1].recordAddress))
    }

    /** The guest behind the call it made. */
    ghost function BehindCall(c: Context, f: Frame): Context {
      c.(pc := f.callbackResumePc, sp := f.callbackPreCallSp, originalX64Sp := f.callbackPriorOriginalX64Sp, isa := 2,
         cookie := f.cookie, stopReason := NoStop)
    }

    /**
     `generic_finish_callback`: after a call the x64 code resumes behind it, on the stack it had; a tail
     transfer completes the whole frame.
     */
    method FinishCallback() returns (ok: bool)
      requires Valid() && active && (stage == Arm || stage == ArmCallback) && Registers(context)
      modifies this`context, this`memory, this`stage, this`depth, this`frames, this`framePops, this`entries,
               this`pendingCallbackReturn
      ensures Valid() && Registers(context) && ok == old(Finishable(memory, access, depth, frames))
      ensures !ok ==> depth == old(depth) && framePops == old(framePops) && stage == old(stage)
      ensures ok ==> old(stage) == ArmCallback && Tagged()
      ensures ok ==>
                var f := old(frames)[old(depth) - 1];
                && !pendingCallbackReturn && f.callback != NoCallback
                && (f.callback == Call ==>
                      && stage == X64 && depth == old(depth) && framePops == old(framePops) && memory == old(memory)
                      && context == BehindCall(old(context), f) && entries == old(entries)
                      && frames == old(frames)[depth - 1 := f.(callback := NoCallback, callbackResumePc := 0, callbackPreCallSp := 0,
                                                               callbackArmEntrySp := 0, callbackPriorOriginalX64Sp := 0)])
                && (f.callback == Tail ==>
                      var e := old(entries)[old(depth) - 1];
                      && depth == old(depth) - 1 && framePops == old(framePops) + 1 && entries == old(entries)[..depth]
                      && context == Returned(old(context), e) && stage == e.stage && frames[..depth] == e.lower
                      && e.sp >= WORD && PutBack(e.memory, old(memory), memory, e.sp - WORD))
    {
      hide Sound, Present, WordAt, PutBack;
      NoFramesInArm(stage, depth, frames, entries);
      if depth == 0 || frames[depth - 1].callback == NoCallback {
        return false;
      }
      var frame := frames[depth - 1];
      pendingCallbackReturn := false;
      CallbackSound(stage, X64, depth, frames, entries, frame.(callback := NoCallback, callbackResumePc := 0,
                    callbackPreCallSp := 0, callbackArmEntrySp := 0, callbackPriorOriginalX64Sp := 0));
      if frame.callback == Call {
        context := context.(pc := frame.callbackResumePc, sp := frame.callbackPreCallSp,
                            originalX64Sp := frame.callbackPriorOriginalX64Sp, isa := ISA_X64, cookie := frame.cookie,
                            stopReason := NoStop);
        frames := frames[depth - 1 := frame.(callback := NoCallback, callbackResumePc := 0, callbackPreCallSp := 0,
                                             callbackArmEntrySp := 0, callbackPriorOriginalX64Sp := 0)];
        stage := X64;
        return true;
      }
      context := context.(sp := frame.recordAddress + WORD);
      ok := PopX64();
    }

    // ---- Giving up ----

    /** `generic_restore_records`: the overwritten words of all live frames, the top one first. */
    method RestoreRecords() returns (restored: bool)
      requires Valid() && active
      modifies this`memory
      ensures RecordsRestored(old(memory), memory, access, frames, 0, depth, entries)
      ensures restored <==> forall i :: 0 <= i < depth ==> CanReplace(old(memory), access, frames[i].recordAddress)
    {
      hide Structured, RecordsRestored, Present, WithWord, CanReplace;
      restored := true;
      var n: nat := depth;
      ghost var before := memory;
      NoneRestored(before, access, frames, depth, entries);
      while n > 0
        invariant n <= depth
        invariant RecordsRestored(before, memory, access, frames, n, depth, entries)
        invariant restored <==> forall i :: n <= i < depth ==> CanReplace(before, access, frames[i].recordAddress)
      {
        n := n - 1;
        var frame := frames[n];
        ghost var last := memory;
        AllWritten(stage, depth, frames, n);
        SameReach(before, last, access, frames, n + 1, depth, entries, frame.recordAddress);
        if frame.recordWritten {
          var ok, prior := ReplaceRecord(frame.recordAddress, frame.oldRecord);
          if !ok {
            restored := false;
          }
          OneMoreRestored(before, last, memory, access, frames, n, depth, entries);
        }
      }
    }

    /** `generic_invariant_at`: restore what can be restored, forget all frames, and stop. */
    method Abort() returns (reason: StopReason)
      requires Valid() && active
      modifies this`context, this`memory, this`active, this`stage, this`depth, this`frames, this`entries, this`running,
               this`nativeReturnPc, this`pendingX64Target, this`pendingArmResumePc, this`pendingArmResumeSp,
               this`pendingDispatch, this`pendingCallbackReturn, this`pendingNativeReturn, this`lastReason
      ensures Valid() && !active && !running && stage == Idle && depth == 0 && frames == [NO_FRAME, NO_FRAME]
      ensures reason == InvariantViolation == lastReason
      ensures context == old(context).(cookie := 0, isa := 1, stopReason := InvariantViolation)
      ensures RecordsRestored(old(memory), memory, access, old(frames), 0, old(depth), old(entries))
    {
      hide Sound, RecordsRestored;
      var all := RestoreRecords();
      Forget();
      lastReason := InvariantViolation;
      context := context.(cookie := 0, isa := ISA_ARM64EC, stopReason := InvariantViolation);
      running := false;
      reason := InvariantViolation;
    }

    /** All coordinator state cleared. */
    method Forget()
      modifies this`active, this`stage, this`depth, this`frames, this`entries, this`nativeReturnPc, this`pendingX64Target,
               this`pendingArmResumePc, this`pendingArmResumeSp, this`pendingDispatch, this`pendingCallbackReturn,
               this`pendingNativeReturn
      ensures !active && stage == Idle && depth == 0 && frames == [NO_FRAME, NO_FRAME] && entries == []
      ensures !pendingDispatch && !pendingCallbackReturn && !pendingNativeReturn
    {
      active, stage, depth, frames := false, Idle, 0, [NO_FRAME, NO_FRAME];
      nativeReturnPc, pendingX64Target, pendingArmResumePc, pendingArmResumeSp := 0, 0, 0, 0;
      pendingDispatch, pendingCallbackReturn, pendingNativeReturn := false, false, false;
      entries := [];
    }
  
    // ---- The loop ----

    /** What one turn of the loop comes to. */
    ghost predicate Accounted(prior: nat, remaining: nat, arm: nat, x64: nat)
      reads this
    {
      armRetired + x64Retired + remaining == arm + x64 + prior
    }

    ghost function Rank(): nat
      reads this
    {
      if stage == X64 then 0 else 1 + depth
    }

    /** The ARM64EC engine asked to leave: for a finished callback, for a dispatch, or by arriving at x64 code. */
    ghost predicate CanLeave(a: ArmAnswer, depth: nat, frames: seq<Frame>) {
      if a.callbackReturn then Finishable(a.memory, a.access, depth, frames)
      else if a.dispatch then Pushable(a.context, a.memory, a.access, depth, a.x64Target, a.resumeSp)
      else IsX64(a.context.pc)
           && Pushable(a.context, a.memory, a.access, depth, targets(a.context.pc).value.resolved, a.context.sp)
    }

    /** Where the guest goes when the ARM64EC engine leaves. */
    ghost function LeftFor(a: ArmAnswer, depth: nat, frames: seq<Frame>, entries: seq<Entry>, cookie: nat): Context
      requires CanLeave(a, depth, frames) && Registers(a.context) && depth <= |frames| && depth == |entries|
    {
      if a.callbackReturn then
        if frames[depth - 1].callback == Call then BehindCall(a.context, frames[depth - 1])
        else Returned(a.context, entries[depth - 1])
      else Pushed(a.context, if a.dispatch then a.x64Target else targets(a.context.pc).value.resolved, cookie)
    }

    /** Whichever way the ARM64EC engine asked to leave, the guest goes there. */
    method LeaveArm(ghost a: ArmAnswer) returns (ok: bool)
      requires Valid() && active && (stage == Arm || stage == ArmCallback) && Registers(context) && Told(a)
      modifies this`context, this`memory, this`stage, this`depth, this`frames, this`generation, this`framePushes, this`framePops,
               this`maximumDepth, this`entries, this`pendingCallbackReturn, this`pendingDispatch, this`pendingX64Target,
               this`pendingArmResumePc, this`pendingArmResumeSp
      ensures Valid() && Registers(context)
      ensures framePushes + old(depth) + old(framePops) == framePops + depth + old(framePushes)
      ensures |old(entries)| == old(depth) <= |old(frames)| && ok == CanLeave(a, old(depth), old(frames))
      ensures ok ==> context == LeftFor(a, old(depth), old(frames), old(entries), generation)
      ensures ok ==> Tagged() && (stage == X64 || (stage != X64 && depth < old(depth)))
    {
      hide Sound, CanReplace, Returned, PutBack;
      NoFramesInArm(stage, depth, frames, entries);
      if pendingCallbackReturn {
        ok := FinishCallback();
        return;
      }
      if pendingDispatch {
        var target, resumePc, resumeSp := pendingX64Target, pendingArmResumePc, pendingArmResumeSp;
        pendingDispatch, pendingX64Target, pendingArmResumePc, pendingArmResumeSp := false, 0, 0, 0;
        ok := PushX64(target, resumePc, resumeSp);
        return;
      }
      var target := targets(context.pc);
      if target.None? || target.value.kind != X64Boundary {
        return false;
      }
      ok := PushX64(target.value.resolved, context.x[30], context.sp);
    }

    /** What a turn with the ARM64EC engine comes to. */
    ghost function ArmOutcome(a: ArmAnswer, prior: nat): Outcome
      reads this
    {
      if (svcDelivery && !a.accepted) || !a.captured || !a.agrees || a.retired > prior then Broken
      else if a.reason != ArchTransition then Leave(a.reason)
      else if a.nativeReturn then if depth == 0 && a.context.pc == nativeReturnPc then Leave(ArchTransition) else Broken
      else if CanLeave(a, depth, frames) then Go else Broken
    }

    /** The ARM64EC engine run and paid for, unless it does not take the address to come home to. */
    method ArmRun(prior: nat) returns (answer: ArmAnswer, remaining: nat)
      requires Valid() && active
      modifies this`context, this`memory, this`access, this`pendingX64Target, this`pendingArmResumePc, this`pendingArmResumeSp,
               this`pendingDispatch, this`pendingCallbackReturn, this`pendingNativeReturn, this`armRetired
      ensures Valid()
      ensures svcDelivery && !answer.accepted ==> remaining == prior && armRetired == old(armRetired)
      ensures !svcDelivery || answer.accepted ==>
                && Registers(context) && Told(answer)
                && remaining == (if answer.captured && answer.retired <= prior then prior - answer.retired else prior)
                && armRetired + remaining == old(armRetired) + prior
    {
      hide Sound;
      remaining := prior;
      answer := *;
      if svcDelivery {
        var accepted: bool := *;
        if !accepted {
          answer := answer.(accepted := false);
          return;
        }
      }
      answer := RunArm();
      answer := answer.(accepted := true);
      if answer.captured && answer.retired <= remaining {
        armRetired := armRetired + answer.retired;
        remaining := remaining - answer.retired;
      }
    }

    /** One turn with the ARM64EC engine, whose stop information may be missing or say another reason than it returned. */
    method ArmTurn(prior: nat) returns (outcome: Outcome, remaining: nat, ghost a: ArmAnswer)
      requires Valid() && active && (stage == Arm || stage == ArmCallback)
      modifies this`context, this`memory, this`access, this`stage, this`depth, this`frames, this`generation, this`framePushes,
               this`framePops, this`maximumDepth, this`entries, this`pendingCallbackReturn, this`pendingDispatch,
               this`pendingX64Target, this`pendingArmResumePc, this`pendingArmResumeSp, this`pendingNativeReturn,
               this`armRetired, this`lastReason, this`active, this`nativeReturnPc
      ensures Valid() && outcome == old(ArmOutcome(a, prior))
      ensures remaining == if a.captured && a.retired <= prior && !(svcDelivery && !a.accepted) then prior - a.retired else prior
      ensures remaining <= prior && Accounted(prior, remaining, old(armRetired), x64Retired)
      ensures framePushes + old(depth) + old(framePops) == framePops + depth + old(framePushes)
      ensures outcome.Go? ==> active && Registers(context) && Tagged() && Rank() < old(Rank())
      ensures outcome.Go? ==> |old(entries)| == old(depth) <= |old(frames)| && Registers(a.context)
      ensures outcome.Go? ==> context == LeftFor(a, old(depth), old(frames), old(entries), generation)
      ensures outcome.Leave? ==> lastReason == outcome.reason
      ensures active <==> !(outcome.Leave? && a.reason == ArchTransition)
      ensures !active ==> outcome == Leave(ArchTransition) && context == a.context.(cookie := 0, isa := 1)
      ensures !active ==> old(depth) == 0
    {
      hide Sound, CanLeave, LeftFor, Tagged, Registers;
      var answer;
      answer, remaining := ArmRun(prior);
      a := answer;
      if (svcDelivery && !answer.accepted) || !answer.captured || answer.retired > prior || !answer.agrees {
        return Broken, remaining, a;
      }
      lastReason := answer.reason;
      if answer.reason != ArchTransition {
        return Leave(answer.reason), remaining, a;
      }
      outcome := ArmStep(a);
    }

    /** A transition out of the ARM64EC engine: home, or to x64 code. */
    method ArmStep(ghost a: ArmAnswer) returns (outcome: Outcome)
      requires Valid() && active && (stage == Arm || stage == ArmCallback) && Registers(context) && Told(a)
      requires a.captured && a.agrees && a.reason == ArchTransition && !(svcDelivery && !a.accepted)
      modifies this`context, this`memory, this`stage, this`depth, this`frames, this`generation, this`framePushes, this`framePops,
               this`maximumDepth, this`entries, this`pendingCallbackReturn, this`pendingDispatch, this`pendingX64Target,
               this`pendingArmResumePc, this`pendingArmResumeSp, this`pendingNativeReturn, this`active, this`nativeReturnPc
      ensures Valid() && outcome == old(ArmOutcome(a, a.retired))
      ensures framePushes + old(depth) + old(framePops) == framePops + depth + old(framePushes)
      ensures outcome.Go? ==> active && Registers(context) && Tagged() && Rank() < old(Rank())
      ensures outcome.Go? ==> |old(entries)| == old(depth) <= |old(frames)| && Registers(a.context)
      ensures outcome.Go? ==> context == LeftFor(a, old(depth), old(frames), old(entries), generation)
      ensures outcome.Leave? ==> outcome == Leave(ArchTransition)
      ensures active <==> !outcome.Leave?
      ensures !active ==> old(depth) == 0 && context == a.context.(cookie := 0, isa := 1)
    {
      hide Sound, CanLeave, LeftFor;
      if pendingNativeReturn {
        if depth != 0 || context.pc != nativeReturnPc {
          return Broken;
        }
        Forget();
        context := context.(cookie := 0, isa := ISA_ARM64EC);
        return Leave(ArchTransition);
      }
      var ok := LeaveArm(a);
      outcome := if ok then Go else Broken;
    }

    /** What a turn with the x64 engine comes to. */
    ghost function X64Outcome(a: X64Answer, prior: nat, preStepSp: nat): Outcome
      reads this
      requires 0 < depth <= |frames|
    {
      if !a.captured || !a.agrees || a.retired > prior then Broken
      else if a.reason != BudgetExpired && a.reason != HostReturn then Leave(a.reason)
      else if a.retired != 1 then Broken
      else if a.context.pc == sentinel then
        if a.reason == HostReturn && a.wasRet && Poppable(a.context, a.memory, a.access) then Go else Broken
      else if a.reason != BudgetExpired || targets(a.context.pc).None? then Broken
      else if IsX64(a.context.pc) then if targets(a.context.pc).value.resolved == a.context.pc then Go else Broken
      else if Enterable(a.context, a.memory, a.access, frames[depth - 1], targets(a.context.pc).value, preStepSp, a.wasCall) then Go
      else Broken
    }

    /** Where the guest goes after an instruction of x64 code. */
    ghost function SteppedTo(a: X64Answer, e: Entry): Context
      requires Registers(a.context)
    {
      var c := a.context;
      if c.pc == sentinel then Returned(c, e)
      else if IsX64(c.pc) || targets(c.pc).None? then c.(stopReason := NoStop)
      else
        var target := targets(c.pc).value.resolved;
        var thunk := if target < 4 then None else EntryThunk(a.memory, a.access, target - 4);
        if thunk.None? || !Fetched(a.memory, a.access, c.sp, 8) then c
        else Entered(c, target, thunk.value.resolved, if a.wasCall then WordAt(a.memory, c.sp) else sentinel)
    }

    /** One turn with the x64 engine: a single instruction.  Its stop information too must be there and agree. */
    method X64Turn(prior: nat) returns (outcome: Outcome, remaining: nat, ghost a: X64Answer)
      requires Valid() && active && stage == X64 && Tagged()
      modifies this`context, this`memory, this`access, this`stage, this`depth, this`frames, this`framePops, this`entries,
               this`x64Retired, this`lastReason
      ensures Valid() && active && 0 < old(depth) <= |old(frames)| && old(depth) == |old(entries)| && Registers(a.context)
      ensures outcome == old(X64Outcome(a, prior, context.sp))
      ensures remaining == if a.captured && a.agrees && a.retired <= prior then prior - a.retired else prior
      ensures remaining <= prior && Accounted(prior, remaining, armRetired, old(x64Retired))
      ensures framePushes + old(depth) + old(framePops) == framePops + depth + framePushes
      ensures outcome.Go? ==> Registers(context) && Tagged() && remaining < prior
      ensures outcome.Go? ==> context == SteppedTo(a, old(entries)[old(depth) - 1])
      ensures outcome.Go? ==> depth == if a.context.pc == sentinel then old(depth) - 1 else old(depth)
      ensures outcome.Leave? ==> lastReason == outcome.reason && context == a.context
    {
      hide Sound, Returned, EntryThunk, CanReplace, PutBack, WordAt;
      NoFramesInArm(stage, depth, frames, entries);
      remaining := prior;
      var preStepSp := context.sp;
      var answer := RunX64();
      a := answer;
      if !answer.captured || !answer.agrees || answer.retired > remaining {
        return Broken, remaining, a;
      }
      x64Retired := x64Retired + answer.retired;
      remaining := remaining - answer.retired;
      lastReason := answer.reason;
      if answer.reason != BudgetExpired && answer.reason != HostReturn {
        return Leave(answer.reason), remaining, a;
      }
      if answer.retired != 1 {
        return Broken, remaining, a;
      }
      var ok := Step(answer, preStepSp);
      outcome := if ok then Go else Broken;
    }

    /** After one instruction the guest is still in x64 code, has returned to the sentinel, or has reached ARM64EC code. */
    method Step(answer: X64Answer, preStepSp: nat) returns (ok: bool)
      requires Valid() && active && stage == X64 && Tagged() && Registers(context)
      requires answer.context == context && answer.memory == memory && answer.access == access
      requires answer.captured && answer.agrees && answer.retired == 1
      requires answer.reason == BudgetExpired || answer.reason == HostReturn
      modifies this`context, this`memory, this`stage, this`depth, this`frames, this`framePops, this`entries
      ensures Valid() && 0 < old(depth) <= |old(frames)| && old(depth) == |old(entries)|
      ensures ok == old(X64Outcome(answer, 1, preStepSp)).Go?
      ensures old(depth) + old(framePops) == framePops + depth
      ensures ok ==> Registers(context) && Tagged() && context == SteppedTo(answer, old(entries)[old(depth) - 1])
      ensures ok ==> depth == if answer.context.pc == sentinel then old(depth) - 1 else old(depth)
    {
      hide Sound, Returned, EntryThunk, CanReplace, PutBack, WordAt, Fetched;
      NoFramesInArm(stage, depth, frames, entries);
      if context.pc == sentinel {
        if answer.reason != HostReturn || !answer.wasRet {
          return false;
        }
        ok := PopX64();
        return;
      }
      var target := targets(context.pc);
      if answer.reason != BudgetExpired || target.None? {
        return false;
      }
      if target.value.kind == X64Boundary {
        if target.value.resolved != context.pc {
          return false;
        }
        context := context.(stopReason := NoStop);
        return true;
      }
      ok := EnterCallback(target.value, preStepSp, answer.wasCall);
    }

    /** A fresh run can begin here. */
    ghost predicate Beginnable(c: Context)
      requires Registers(c)
    {
      c.isa == 1 && c.cookie == 0 && c.x[18] == c.teb && c.x[30] != 0 && targets(c.pc).Some? && !IsX64(c.pc)
    }

    /** `generic_begin`: a fresh run enters at an ARM64EC target with no frames. */
    method Begin() returns (ok: bool)
      requires Valid() && !active && Registers(context)
      modifies this`context, this`active, this`stage, this`depth, this`frames, this`entries, this`nativeReturnPc,
               this`pendingX64Target, this`pendingArmResumePc, this`pendingArmResumeSp, this`pendingDispatch,
               this`pendingCallbackReturn, this`pendingNativeReturn
      ensures Valid() && Registers(context) && ok == active == Beginnable(old(context))
      ensures ok ==> stage == Arm && depth == 0 && frames == [NO_FRAME, NO_FRAME] && Tagged()
      ensures ok ==> !pendingDispatch && !pendingCallbackReturn && !pendingNativeReturn
      ensures ok ==> context == old(context).(pc := targets(old(context).pc).value.resolved)
      ensures ok ==> nativeReturnPc == (if svcDelivery then hostReturnSentinel else old(context).x[30])
      ensures !ok ==> context == old(context) && stage == old(stage) && depth == old(depth) && frames == old(frames)
    {
      if context.isa != ISA_ARM64EC || context.cookie != 0 || context.x[18] != context.teb || context.x[30] == 0 {
        return false;
      }
      var target := targets(context.pc);
      if target.None? || target.value.kind == X64Boundary {
        return false;
      }
      Forget();
      active := true;
      stage := Arm;
      nativeReturnPc := if svcDelivery then hostReturnSentinel else context.x[30];
      context := context.(pc := target.value.resolved);
      ok := true;
    }

    /** `generic_context_valid`. */
    predicate Resumable()
      reads this
    {
      ValidContext(context) && stage != Idle && Tagged()
    }

    /**
     `gem_hybrid_runtime_run`.  It always comes to an end.  Every instruction retired is paid for out of the
     budget, pushes and pops balance, and what is left behind is either no run at all or one whose frames obey
     the stack discipline and can be resumed.
     */
    method Run(budget: nat) returns (reason: StopReason, ghost accepted: bool, ghost remaining: nat, ghost aborted: bool)
      requires Valid() && Registers(context)
      modifies this
      ensures Valid() && context.stopReason == lastReason == reason
      ensures accepted == old(
                && !running && ValidContext(context) && 0 < budget <= maxBudget && context.stopReason == NoStop
                && (if active then Tagged() else Beginnable(context)))
      ensures accepted ==> !running && armRetired + x64Retired + remaining == budget && remaining <= budget <= maxBudget
      ensures accepted && !aborted ==> framePushes + old(depth) == framePops + depth
      ensures aborted ==> accepted && !active && reason == InvariantViolation && context.cookie == 0
      ensures !accepted ==> reason == InvariantViolation && depth == old(depth) && running == old(running) && active == old(active)
                            && stage == old(stage) && frames == old(frames) && memory == old(memory)
                            && context == old(context).(stopReason := InvariantViolation)
      ensures accepted && !active && !aborted ==> reason == ArchTransition && context.isa == ISA_ARM64EC && context.cookie == 0
    {
      accepted, remaining, aborted := false, budget, false;
      var fit := !running && ValidContext(context) && budget != 0 && budget <= maxBudget && context.stopReason == NoStop;
      if fit && !active {
        fit := Begin();
      }
      if !fit || !Resumable() {
        lastReason := InvariantViolation;
        context := context.(stopReason := InvariantViolation);
        return InvariantViolation, accepted, remaining, aborted;
      }
      accepted := true;
      reason, remaining, aborted := Turns(budget);
    }

    /** Turn after turn, until one is not followed by another. */
    method Loop(budget: nat) returns (outcome: Outcome, remaining: nat)
      requires Valid() && active && Registers(context) && Tagged() && armRetired == x64Retired == framePushes == framePops == 0
      modifies this`context, this`memory, this`access, this`stage, this`depth, this`frames, this`generation, this`framePushes,
               this`framePops, this`maximumDepth, this`entries, this`pendingCallbackReturn, this`pendingDispatch, this`pendingX64Target,
               this`pendingArmResumePc, this`pendingArmResumeSp, this`pendingNativeReturn, this`armRetired, this`x64Retired,
               this`lastReason, this`active, this`nativeReturnPc
      ensures Valid() && !outcome.Go? && remaining <= budget && Accounted(budget, remaining, 0, 0)
      ensures framePushes + old(depth) == framePops + depth
      ensures outcome.Broken? ==> active
      ensures outcome.Leave? ==> lastReason == outcome.reason
      ensures !active ==> outcome == Leave(ArchTransition) && context.cookie == 0 && context.isa == ISA_ARM64EC
    {
      hide Sound, Tagged, X64Outcome, ArmOutcome, LeftFor, SteppedTo, CanLeave;
      remaining := budget;
      outcome := Go;
      while outcome.Go?
        invariant Valid() && remaining <= budget && Accounted(budget, remaining, 0, 0)
        invariant framePushes + old(depth) == framePops + depth
        invariant outcome.Go? ==> active && Registers(context) && Tagged()
        invariant outcome.Broken? ==> active
        invariant outcome.Leave? ==> lastReason == outcome.reason
        invariant !active ==> outcome == Leave(ArchTransition) && context.cookie == 0 && context.isa == ISA_ARM64EC
        decreases outcome.Go?, remaining, Rank()
      {
        var requested: bool := *;
        if requested {
          lastReason := AsyncRequest;
          outcome := Leave(AsyncRequest);
        } else if remaining == 0 {
          lastReason := BudgetExpired;
          outcome := Leave(BudgetExpired);
        } else if stage == X64 {
          ghost var a;
          outcome, remaining, a := X64Turn(remaining);
        } else {
          NoFramesInArm(stage, depth, frames, entries);
          ghost var a;
          outcome, remaining, a := ArmTurn(remaining);
        }
      }
    }

    /** A run from its first turn to its last. */
    method Turns(budget: nat) returns (reason: StopReason, ghost left: nat, ghost aborted: bool)
      requires Valid() && active && Registers(context) && Tagged() && budget <= maxBudget
      modifies this
      ensures Valid() && !running && context.stopReason == lastReason == reason
      ensures armRetired + x64Retired + left == budget && left <= budget
      ensures !aborted ==> framePushes + old(depth) == framePops + depth
      ensures aborted ==> !active && reason == InvariantViolation && context.cookie == 0
      ensures !active && !aborted ==> reason == ArchTransition && context.isa == ISA_ARM64EC && context.cookie == 0
    {
      hide Sound, Registers, Tagged;
      Start();
      var outcome;
      outcome, left := Loop(budget);
      aborted := outcome.Broken?;
      reason := Close(outcome);
    }

    /** The counters of a run at nothing. */
    method Start()
      requires Valid() && active && Tagged()
      modifies this`armRetired, this`x64Retired, this`framePushes, this`framePops, this`maximumDepth, this`lastReason, this`running
      ensures Valid() && Tagged() && armRetired == x64Retired == framePushes == framePops == 0
    {
      hide Sound;
      armRetired, x64Retired, framePushes, framePops := 0, 0, 0, 0;
      maximumDepth := depth;
      lastReason := NoStop;
      running := true;
    }

    /** The end of a run: an abort, or the reason of the last turn. */
    method Close(outcome: Outcome) returns (reason: StopReason)
      requires Valid() && !outcome.Go? && (outcome.Broken? ==> active) && (outcome.Leave? ==> lastReason == outcome.reason)
      modifies this`context, this`memory, this`active, this`stage, this`depth, this`frames, this`entries, this`running,
               this`nativeReturnPc, this`pendingX64Target, this`pendingArmResumePc, this`pendingArmResumeSp,
               this`pendingDispatch, this`pendingCallbackReturn, this`pendingNativeReturn, this`lastReason
      ensures Valid() && !running && context.stopReason == lastReason == reason
      ensures outcome.Broken? ==> !active && reason == InvariantViolation && context.cookie == 0
      ensures outcome.Leave? ==> reason == outcome.reason && context == old(context).(stopReason := reason)
      ensures outcome.Leave? ==> depth == old(depth) && active == old(active)
    {
      hide Sound, RecordsRestored;
      if outcome.Broken? {
        reason := Abort();
        return;
      }
      reason := outcome.reason;
      context := context.(stopReason := reason);
      running := false;
    }
  }
}

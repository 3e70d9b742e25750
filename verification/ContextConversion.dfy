/**
 Registers and flags of an ARM64EC thread as an x64 thread sees them, and back.
 */
module ContextConversion {
  import opened Options

  type U128 = (bv64, bv64)

  // ---- Flags ----

  /** Bit `from` of a word, moved to bit `to`. */
  function Moved(v: bv32, from: bv5, to: bv5): bv32 {
    ((v >> from) & 1) << to
  }

  /** The complement of bit `from`, moved to bit `to`. */
  function MovedNot(v: bv32, from: bv5, to: bv5): bv32 {
    ((!v >> from) & 1) << to
  }

  const RFLAGS_NZCV_MASK: bv64 := 0x8c1
  const NZCV_MASK: bv32 := 0xf000_0000
  const FPCR_MXCSR_MASK: bv32 := (0x1f << 8) | (1 << 15) | (3 << 22) | (1 << 24)
  const FPSR_MXCSR_MASK: bv32 := 0x9f

  /** How the carry of an operation reads: an x86 borrow is the complement of an ARM carry. */
  datatype Arithmetic = Logical | Addition | Subtract

  function Borrow(mode: Arithmetic): bv32 {
    if mode.Subtract? then 1 else 0
  }

  function RflagsFromNzcv(nzcv: bv32, preserved: bv64, mode: Arithmetic): bv64 {
    (preserved & !RFLAGS_NZCV_MASK)
    | ((((nzcv >> 29) & 1) ^ Borrow(mode)) as bv64)
    | ((((nzcv >> 30) & 1) as bv64) << 6) | ((((nzcv >> 31) & 1) as bv64) << 7) | ((((nzcv >> 28) & 1) as bv64) << 11)
  }

  function NzcvFromRflags(rflags: bv64, preserved: bv32, mode: Arithmetic): bv32 {
    (preserved & !NZCV_MASK)
    | ((((rflags & 1) as bv32) ^ Borrow(mode)) << 29)
    | ((((rflags >> 6) & 1) as bv32) << 30) | ((((rflags >> 7) & 1) as bv32) << 31) | ((((rflags >> 11) & 1) as bv32) << 28)
  }

  lemma NzcvReturns(nzcv: bv32, preserved: bv64, borrow: bv32)
    requires borrow == 0 || borrow == 1
    ensures var r: bv64 :=
              (preserved & !RFLAGS_NZCV_MASK) | ((((nzcv >> 29) & 1) ^ borrow) as bv64)
              | ((((nzcv >> 30) & 1) as bv64) << 6) | ((((nzcv >> 31) & 1) as bv64) << 7) | ((((nzcv >> 28) & 1) as bv64) << 11);
            && (nzcv & !NZCV_MASK)
               | ((((r & 1) as bv32) ^ borrow) << 29)
               | ((((r >> 6) & 1) as bv32) << 30) | ((((r >> 7) & 1) as bv32) << 31) | ((((r >> 11) & 1) as bv32) << 28) == nzcv
            && r & !RFLAGS_NZCV_MASK == preserved & !RFLAGS_NZCV_MASK
  {
  }

  lemma RflagsReturn(rflags: bv64, preserved: bv32, borrow: bv32)
    requires borrow == 0 || borrow == 1
    ensures var n: bv32 :=
              (preserved & !NZCV_MASK) | ((((rflags & 1) as bv32) ^ borrow) << 29)
              | ((((rflags >> 6) & 1) as bv32) << 30) | ((((rflags >> 7) & 1) as bv32) << 31) | ((((rflags >> 11) & 1) as bv32) << 28);
            && (rflags & !RFLAGS_NZCV_MASK)
               | ((((n >> 29) & 1) ^ borrow) as bv64)
               | ((((n >> 30) & 1) as bv64) << 6) | ((((n >> 31) & 1) as bv64) << 7) | ((((n >> 28) & 1) as bv64) << 11) == rflags
            && n & !NZCV_MASK == preserved & !NZCV_MASK
  {
  }

  /** Flags survive the way to x64 and back, in any arithmetic mode, and disturb nothing else on the way. */
  lemma FlagsReturn(nzcv: bv32, preserved: bv64, mode: Arithmetic)
    ensures NzcvFromRflags(RflagsFromNzcv(nzcv, preserved, mode), nzcv, mode) == nzcv
    ensures RflagsFromNzcv(nzcv, preserved, mode) & !0x8c1 == preserved & !0x8c1
  {
    NzcvReturns(nzcv, preserved, Borrow(mode));
  }

  /** And the other way round. */
  lemma FlagsReturnFromX64(rflags: bv64, preserved: bv32, mode: Arithmetic)
    ensures RflagsFromNzcv(NzcvFromRflags(rflags, preserved, mode), rflags, mode) == rflags
    ensures NzcvFromRflags(rflags, preserved, mode) & 0x0fff_ffff == preserved & 0x0fff_ffff
  {
    RflagsReturn(rflags, preserved, Borrow(mode));
  }

  /** The carry is complemented for a subtraction; zero, sign and overflow are carried over. */
  lemma FlagMeanings(nzcv: bv32, preserved: bv64, mode: Arithmetic)
    ensures var r := RflagsFromNzcv(nzcv, preserved, mode);
            && (r & 1 == 1 <==> (((nzcv >> 29) & 1 == 1) != mode.Subtract?))
            && ((r >> 6) & 1 == 1 <==> (nzcv >> 30) & 1 == 1)
            && ((r >> 7) & 1 == 1 <==> (nzcv >> 31) & 1 == 1)
            && ((r >> 11) & 1 == 1 <==> (nzcv >> 28) & 1 == 1)
  {
  }

  // ---- Floating-point control ----

  /** The two rounding-mode encodings swap 1 and 2. */
  function SwappedRounding(r: bv32): bv32 {
    if r == 1 then 2 else if r == 2 then 1 else r
  }

  /** MXCSR: exception flags, inverted exception masks, rounding mode and flush-to-zero. */
  function MxcsrFromFp(fpcr: bv32, fpsr: bv32): bv32 {
    Moved(fpsr, 0, 0) | Moved(fpsr, 7, 1) | Moved(fpsr, 1, 2) | Moved(fpsr, 2, 3) | Moved(fpsr, 3, 4) | Moved(fpsr, 4, 5)
    | MovedNot(fpcr, 8, 7) | MovedNot(fpcr, 15, 8) | MovedNot(fpcr, 9, 9) | MovedNot(fpcr, 10, 10)
    | MovedNot(fpcr, 11, 11) | MovedNot(fpcr, 12, 12)
    | (SwappedRounding((fpcr >> 22) & 3) << 13) | (((fpcr >> 24) & 1) << 15)
  }

  function FpcrFromMxcsr(mxcsr: bv32): bv32 {
    MovedNot(mxcsr, 7, 8) | MovedNot(mxcsr, 8, 15) | MovedNot(mxcsr, 9, 9) | MovedNot(mxcsr, 10, 10)
    | MovedNot(mxcsr, 11, 11) | MovedNot(mxcsr, 12, 12)
    | (SwappedRounding((mxcsr >> 13) & 3) << 22) | (((mxcsr >> 15) & 1) << 24)
  }

  function FpsrFromMxcsr(mxcsr: bv32): bv32 {
    Moved(mxcsr, 0, 0) | Moved(mxcsr, 1, 7) | Moved(mxcsr, 2, 1) | Moved(mxcsr, 3, 2) | Moved(mxcsr, 4, 3) | Moved(mxcsr, 5, 4)
  }

  /** Denormals-are-zero has no ARM counterpart and is refused. */
  predicate Convertible(mxcsr: bv32) {
    mxcsr & (1 << 6) == 0
  }

  /** What comes from ARM is always convertible back. */
  lemma ProducedIsConvertible(fpcr: bv32, fpsr: bv32)
    ensures Convertible(MxcsrFromFp(fpcr, fpsr))
  {
  }

  lemma ControlReturns(fpcr: bv32, fpsr: bv32)
    ensures FpcrFromMxcsr(MxcsrFromFp(fpcr, fpsr)) == fpcr & 0x01c0_9f00
  {
  }

  lemma StatusReturns(fpcr: bv32, fpsr: bv32)
    ensures FpsrFromMxcsr(MxcsrFromFp(fpcr, fpsr)) == fpsr & 0x9f
  {
  }

  /** The sixteen bits of a convertible MXCSR survive the way to ARM and back. */
  lemma MxcsrReturns(mxcsr: bv32)
    requires Convertible(mxcsr) && mxcsr & 0xffff_0000 == 0
    ensures MxcsrFromFp(FpcrFromMxcsr(mxcsr), FpsrFromMxcsr(mxcsr)) == mxcsr
  {
  }

  /** The bits under a mask replaced, the others kept. */
  function Merged(v: bv32, mask: bv32, bits: bv32): bv32 {
    (v & !mask) | bits
  }

  /** The bits beside those of MXCSR do not matter. */
  lemma MxcsrIgnoresOthers(fpcr: bv32, fpsr: bv32, control: bv32, status: bv32)
    requires control & !FPCR_MXCSR_MASK == 0 && status & !FPSR_MXCSR_MASK == 0
    ensures MxcsrFromFp(Merged(fpcr, FPCR_MXCSR_MASK, control), Merged(fpsr, FPSR_MXCSR_MASK, status)) == MxcsrFromFp(control, status)
  {
  }

  lemma WithinMasks(mxcsr: bv32)
    ensures FpcrFromMxcsr(mxcsr) & !FPCR_MXCSR_MASK == 0 && FpsrFromMxcsr(mxcsr) & !FPSR_MXCSR_MASK == 0
  {
  }

  lemma LowHalf(mxcsr: bv32)
    ensures FpcrFromMxcsr(mxcsr & 0xffff) == FpcrFromMxcsr(mxcsr) && FpsrFromMxcsr(mxcsr & 0xffff) == FpsrFromMxcsr(mxcsr)
    ensures (mxcsr & 0xffff) & 0xffff_0000 == 0 && (Convertible(mxcsr) ==> Convertible(mxcsr & 0xffff))
  {
  }

  /** Whatever the ARM registers hold besides, a convertible MXCSR put into them is read back, all but its unused upper half. */
  lemma MxcsrThrough(mxcsr: bv32, fpcr: bv32, fpsr: bv32)
    requires Convertible(mxcsr)
    ensures MxcsrFromFp(Merged(fpcr, FPCR_MXCSR_MASK, FpcrFromMxcsr(mxcsr)), Merged(fpsr, FPSR_MXCSR_MASK, FpsrFromMxcsr(mxcsr)))
         == mxcsr & 0xffff
  {
    hide MxcsrFromFp, Merged, FpcrFromMxcsr, FpsrFromMxcsr;
    LowHalf(mxcsr);
    MxcsrReturns(mxcsr & 0xffff);
    WithinMasks(mxcsr);
    MxcsrIgnoresOthers(fpcr, fpsr, FpcrFromMxcsr(mxcsr), FpsrFromMxcsr(mxcsr));
  }

  ghost predicate Bit(v: bv32, k: bv5) {
    (v >> k) & 1 == 1
  }

  /**
   MXCSR, bit by bit: the exception flags are those of FPSR and the exception masks the complement of the traps
   FPCR enables, as invalid, denormal, divide by zero, overflow, underflow and inexact; the rounding modes up
   and down have swapped codes, and flush-to-zero is the top bit.
   */
  lemma MxcsrMeans(fpcr: bv32, fpsr: bv32)
    ensures var m := MxcsrFromFp(fpcr, fpsr);
            && Bit(m, 0) == Bit(fpsr, 0) && Bit(m, 1) == Bit(fpsr, 7) && Bit(m, 2) == Bit(fpsr, 1)
            && Bit(m, 3) == Bit(fpsr, 2) && Bit(m, 4) == Bit(fpsr, 3) && Bit(m, 5) == Bit(fpsr, 4) && !Bit(m, 6)
            && Bit(m, 7) != Bit(fpcr, 8) && Bit(m, 8) != Bit(fpcr, 15) && Bit(m, 9) != Bit(fpcr, 9)
            && Bit(m, 10) != Bit(fpcr, 10) && Bit(m, 11) != Bit(fpcr, 11) && Bit(m, 12) != Bit(fpcr, 12)
            && Bit(m, 13) == Bit(fpcr, 23) && Bit(m, 14) == Bit(fpcr, 22) && Bit(m, 15) == Bit(fpcr, 24) && m >> 16 == 0
  {
  }

  // ---- Contexts ----

  const ISA_ARM64EC := 1
  const ISA_X64 := 2

  datatype ThreadContext = ThreadContext(
    x: seq<bv64>, sp: bv64, pc: bv64, nzcv: bv32, fpcr: bv32, fpsr: bv32, v: seq<U128>,
    x64Rflags: bv64, x64Mxcsr: bv32, x64Fcw: bv16, x64Fsw: bv16, x87: seq<U128>,
    teb: bv64, originalX64Sp: bv64, cookie: bv64, isa: nat, stopReason: nat, layoutOk: bool)

  datatype X64Context = X64Context(
    gpr: seq<bv64>, rip: bv64, rflags: bv64, mxcsr: bv32, fcw: bv16, fsw: bv16, xmm: seq<U128>, x87: seq<U128>, teb: bv64)

  predicate Shaped(c: ThreadContext) { |c.x| == 31 && |c.v| == 16 && |c.x87| == 8 }

  predicate ShapedX64(s: X64Context) { |s.gpr| == 16 && |s.xmm| == 16 && |s.x87| == 8 }

  /** `gem_context_is_valid`. */
  predicate Valid(c: ThreadContext)
    requires Shaped(c)
  {
    c.layoutOk && c.teb != 0 && c.x[18] == c.teb && (c.isa == ISA_ARM64EC || c.isa == ISA_X64)
  }

  /** RSP, the fifth x64 register, is the stack pointer. */
  function GprOf(c: ThreadContext): (g: seq<bv64>)
    requires Shaped(c)
    ensures |g| == 16
  {
    [c.x[8], c.x[0], c.x[1], c.x[27], c.sp, c.x[29], c.x[25], c.x[26], c.x[2], c.x[3], c.x[4], c.x[5], c.x[19], c.x[20], c.x[21], c.x[22]]
  }

  function WithGpr(c: ThreadContext, g: seq<bv64>): (r: ThreadContext)
    requires Shaped(c) && |g| == 16
    ensures Shaped(r) && r == c.(x := r.x, sp := g[4])
  {
    c.(sp := g[4], x := c.x[8 := g[0]][0 := g[1]][1 := g[2]][27 := g[3]][29 := g[5]][25 := g[6]][26 := g[7]]
      [2 := g[8]][3 := g[9]][4 := g[10]][5 := g[11]][19 := g[12]][20 := g[13]][21 := g[14]][22 := g[15]])
  }

  /** Each x64 register goes to a thread register of its own. */
  lemma GprRead(c: ThreadContext, g: seq<bv64>)
    requires Shaped(c) && |g| == 16
    ensures GprOf(WithGpr(c, g)) == g
  {
  }

  /** The registers no x64 register lives in. */
  ghost predicate ArmOnly(i: int) {
    6 <= i <= 7 || 9 <= i <= 18 || 23 <= i <= 24 || i == 28 || i == 30
  }

  /** Where the x64 registers live, by name: RAX, RCX, RDX, RBX, RSP, RBP, RSI, RDI, then R8 to R15. */
  ghost predicate Held(c: ThreadContext, g: seq<bv64>)
    requires Shaped(c) && |g| == 16
  {
    g == [
      c.x[8], c.x[0], c.x[1], c.x[27], c.sp, c.x[29], c.x[25], c.x[26],
      c.x[2], c.x[3], c.x[4], c.x[5], c.x[19], c.x[20], c.x[21], c.x[22]]
  }

  lemma HeldIs(c: ThreadContext, g: seq<bv64>)
    requires Shaped(c) && |g| == 16
    ensures Held(c, g) <==> GprOf(c) == g
  {
  }

  lemma OthersKept(c: ThreadContext, g: seq<bv64>)
    requires Shaped(c) && |g| == 16
    ensures forall i :: 0 <= i < 31 && ArmOnly(i) ==> WithGpr(c, g).x[i] == c.x[i]
  {
  }

  lemma SameGpr(c: ThreadContext)
    requires Shaped(c)
    ensures WithGpr(c, GprOf(c)) == c
  {
    var r := WithGpr(c, GprOf(c));
    assert r.x == c.x;
  }

  /** `gem_context_x64_materialize`: an x64 thread's registers, as they are. */
  function Materialized(c: ThreadContext): Option<X64Context>
    requires Shaped(c)
  {
    if !Valid(c) || c.isa != ISA_X64 then None
    else Some(X64Context(GprOf(c), c.pc, c.x64Rflags, c.x64Mxcsr, c.x64Fcw, c.x64Fsw, c.v, c.x87, c.teb))
  }

  /** `gem_context_arm64ec_to_x64`: an ARM64EC thread's registers, with flags and control words translated. */
  function ToX64(c: ThreadContext): Option<X64Context>
    requires Shaped(c)
  {
    if !Valid(c) || c.isa != ISA_ARM64EC then None
    else Some(X64Context(
      GprOf(c), c.pc, RflagsFromNzcv(c.nzcv, c.x64Rflags, Logical), MxcsrFromFp(c.fpcr, c.fpsr),
      c.x64Fcw, c.x64Fsw, c.v, c.x87, c.teb))
  }

  function Zeros(n: nat): seq<bv64> { seq(n, _ => 0) }

  /** `gem_context_initialize`. */
  function Initialized(teb: bv64, isa: nat): (c: ThreadContext)
    ensures Shaped(c)
  {
    ThreadContext(Zeros(31)[18 := teb], 0, 0, 0, 0, 0, seq(16, _ => (0, 0)), 0, 0, 0, 0, seq(8, _ => (0, 0)),
                  teb, 0, 0, isa, 0, true)
  }

  function CommittedX64(c: ThreadContext, s: X64Context): (r: ThreadContext)
    requires Shaped(c) && ShapedX64(s)
    ensures Shaped(r)
  {
    WithGpr(c, s.gpr).(pc := s.rip, x64Rflags := s.rflags, x64Mxcsr := s.mxcsr, x64Fcw := s.fcw, x64Fsw := s.fsw,
                       v := s.xmm, x87 := s.x87)
  }

  lemma CommittedIs(c: ThreadContext, s: X64Context)
    requires Shaped(c) && ShapedX64(s) && Valid(c) && c.isa == ISA_X64 && s.teb == c.teb
    ensures Materialized(CommittedX64(c, s)) == Some(s)
    ensures forall i :: 0 <= i < 31 && ArmOnly(i) ==> CommittedX64(c, s).x[i] == c.x[i]
    ensures var r := CommittedX64(c, s);
            r == c.(x := r.x, sp := r.sp, pc := s.rip, x64Rflags := s.rflags, x64Mxcsr := s.mxcsr, x64Fcw := s.fcw,
                    x64Fsw := s.fsw, v := s.xmm, x87 := s.x87)
  {
    hide WithGpr, GprOf;
    GprRead(c, s.gpr);
    OthersKept(c, s.gpr);
    SameRegisters(WithGpr(c, s.gpr), CommittedX64(c, s));
    assert WithGpr(c, s.gpr).x[18] == c.x[18];
  }

  /** An x64 view of an ARM64EC thread: each register where it lives, flags and MXCSR as the ARM ones say, all else as it is. */
  ghost predicate Views(c: ThreadContext, s: X64Context)
    requires Shaped(c) && |s.gpr| == 16
  {
    && Held(c, s.gpr) && s.rip == c.pc && s.fcw == c.x64Fcw && s.fsw == c.x64Fsw && s.xmm == c.v && s.x87 == c.x87 && s.teb == c.teb
    && s.mxcsr == MxcsrFromFp(c.fpcr, c.fpsr) && s.rflags & !0x8c1 == c.x64Rflags & !0x8c1
    && (s.rflags & 1 == 1 <==> Bit(c.nzcv, 29)) && ((s.rflags >> 6) & 1 == 1 <==> Bit(c.nzcv, 30))
    && ((s.rflags >> 7) & 1 == 1 <==> Bit(c.nzcv, 31)) && ((s.rflags >> 11) & 1 == 1 <==> Bit(c.nzcv, 28))
  }

  lemma ToX64Views(c: ThreadContext)
    requires Shaped(c)
    ensures ToX64(c).Some? <==> c.layoutOk && c.teb != 0 && c.x[18] == c.teb && c.isa == 1
    ensures ToX64(c).Some? ==> Views(c, ToX64(c).value)
  {
    hide RflagsFromNzcv, MxcsrFromFp;
    FlagMeanings(c.nzcv, c.x64Rflags, Logical);
    FlagsReturn(c.nzcv, c.x64Rflags, Logical);
    HeldIs(c, GprOf(c));
  }

  /** An x64 thread shows its registers, each where it lives, with the flags and control words it has stored. */
  lemma MaterializedShows(c: ThreadContext)
    requires Shaped(c)
    ensures Materialized(c).Some? <==> c.layoutOk && c.teb != 0 && c.x[18] == c.teb && c.isa == 2
    ensures Materialized(c).Some? ==>
              var s := Materialized(c).value;
              && Held(c, s.gpr)
              && s == X64Context(s.gpr, c.pc, c.x64Rflags, c.x64Mxcsr, c.x64Fcw, c.x64Fsw, c.v, c.x87, c.teb)
  {
    HeldIs(c, GprOf(c));
  }

  /** A thread with nothing in it but its thread block, in x18 too. */
  ghost predicate Blank(c: ThreadContext, teb: bv64) {
    && Shaped(c) && (forall i :: 0 <= i < 31 ==> c.x[i] == if i == 18 then teb else 0)
    && (forall i :: 0 <= i < 16 ==> c.v[i] == (0, 0)) && (forall i :: 0 <= i < 8 ==> c.x87[i] == (0, 0))
    && c == ThreadContext(c.x, 0, 0, 0, 0, 0, c.v, 0, 0, 0, 0, c.x87, teb, 0, 0, 1, 0, true)
  }

  lemma Daz(mxcsr: bv32)
    ensures Convertible(mxcsr) <==> mxcsr & 0x40 == 0
  {
  }

  /** A context of the right layout with a thread block, in x18 too, of one of the two instruction sets. */
  ghost predicate Sane(c: ThreadContext)
    requires Shaped(c)
  {
    c.layoutOk && c.teb != 0 && c.x[18] == c.teb && 1 <= c.isa <= 2
  }

  class Thread {
    var context: ThreadContext

    constructor (context: ThreadContext)
      requires Shaped(context)
      ensures this.context == context
    {
      this.context := context;
    }

    /** `gem_context_x64_commit`: an x64 thread's registers put back; everything the x64 side does not see is kept. */
    method CommitX64(s: X64Context) returns (ok: bool)
      requires Shaped(context) && ShapedX64(s)
      modifies this
      ensures Shaped(context)
      ensures ok <==> old(context.layoutOk && context.teb != 0 && context.x[18] == context.teb && context.isa == 2)
                      && s.teb == old(context).teb
      ensures !ok ==> context == old(context)
      ensures ok ==> Materialized(context) == Some(s) && Held(context, s.gpr)
      ensures ok ==> forall i :: 0 <= i < 31 && ArmOnly(i) ==> context.x[i] == old(context).x[i]
      ensures ok ==> context == old(context).(x := context.x, sp := context.sp, pc := s.rip, x64Rflags := s.rflags,
                       x64Mxcsr := s.mxcsr, x64Fcw := s.fcw, x64Fsw := s.fsw, v := s.xmm, x87 := s.x87)
    {
      hide CommittedX64;
      if !Valid(context) || context.isa != ISA_X64 || s.teb != context.teb {
        return false;
      }
      CommittedIs(context, s);
      context := CommittedX64(context, s);
      MaterializedShows(context);
      ok := true;
    }

    /**
     `gem_context_x64_to_arm64ec`: refused for denormals-are-zero and for a foreign thread block.  The thread then
     converts back to the x64 registers given, but for the unused upper half of MXCSR, and what x64 does not
     see is kept, ARM-only bits of the control words included.
     */
    method FromX64(s: X64Context) returns (ok: bool)
      requires Shaped(context) && ShapedX64(s)
      modifies this
      ensures Shaped(context)
      ensures Sane(old(context)) ==>
                && (ok <==> s.teb != 0 && s.mxcsr & 0x40 == 0 && old(context).isa == 1 && old(context).teb == s.teb)
                && (ok ==> ArmKept(old(context), context))
      ensures !Sane(old(context)) ==>
                && (ok <==> s.teb != 0 && s.mxcsr & 0x40 == 0)
                && (ok ==> exists blank :: Blank(blank, s.teb) && ArmKept(blank, context))
      ensures ok ==>
                && ToX64(context) == Some(s.(mxcsr := s.mxcsr & 0xffff)) && Views(context, s.(mxcsr := s.mxcsr & 0xffff))
                && context.isa == 1 && context.x64Rflags == s.rflags && context.x64Mxcsr == s.mxcsr
      ensures !ok ==> context == old(context)
      ensures ok && Valid(old(context)) ==> context == Converted(old(context), s)
    {
      hide Converted, Convertible, ToX64, Views, ArmKept;
      Daz(s.mxcsr);
      if s.teb == 0 || !Convertible(s.mxcsr) {
        return false;
      }
      if Valid(context) && context.isa != ISA_ARM64EC {
        return false;
      }
      if Valid(context) && context.teb != s.teb {
        return false;
      }
      if !Valid(context) {
        context := Initialized(s.teb, ISA_ARM64EC);
        assert Blank(context, s.teb);
      }
      Given(context, s);
      Assign(s);
      ok := true;
    }

    /** The x64 registers into the thread, field by field. */
    method Assign(s: X64Context)
      requires Shaped(context) && ShapedX64(s)
      modifies this
      ensures Shaped(context) && context == Converted(old(context), s)
    {
      hide WithGpr, NzcvFromRflags, FpcrFromMxcsr, FpsrFromMxcsr, Merged;
      var fpcr := Merged(context.fpcr, FPCR_MXCSR_MASK, FpcrFromMxcsr(s.mxcsr));
      var fpsr := Merged(context.fpsr, FPSR_MXCSR_MASK, FpsrFromMxcsr(s.mxcsr));
      var nzcv := NzcvFromRflags(s.rflags, context.nzcv, Logical);
      context := WithGpr(context, s.gpr);
      context := context.(
        x := context.x[18 := context.teb], pc := s.rip, x64Rflags := s.rflags, nzcv := nzcv, fpcr := fpcr, fpsr := fpsr,
        x64Mxcsr := s.mxcsr, x64Fcw := s.fcw, x64Fsw := s.fsw, v := s.xmm, x87 := s.x87, isa := ISA_ARM64EC);
    }

    /**
     To x64 and back into the same thread: always accepted, and nothing has changed except the cached x64
     flags and MXCSR, which now say what the ARM registers say.
     */
    method ThereAndBack() returns (ok: bool)
      requires Shaped(context)
      modifies this
      ensures Shaped(context)
      ensures ok <==> Valid(old(context)) && old(context).isa == ISA_ARM64EC
      ensures ok ==> context == old(context).(
                x64Rflags := RflagsFromNzcv(old(context).nzcv, old(context).x64Rflags, Logical),
                x64Mxcsr := MxcsrFromFp(old(context).fpcr, old(context).fpsr))
    {
      hide RflagsFromNzcv, MxcsrFromFp, NzcvFromRflags, FpcrFromMxcsr, FpsrFromMxcsr, WithGpr, Convertible;
      var s := ToX64(context);
      if s.None? {
        return false;
      }
      ProducedIsConvertible(context.fpcr, context.fpsr);
      ConvertedBack(context);
      ok := FromX64(s.value);
    }
  }

  function Converted(c: ThreadContext, s: X64Context): (r: ThreadContext)
    requires Shaped(c) && ShapedX64(s)
    ensures Shaped(r)
  {
    var g := WithGpr(c, s.gpr);
    g.(x := g.x[18 := c.teb], pc := s.rip, x64Rflags := s.rflags,
       nzcv := NzcvFromRflags(s.rflags, c.nzcv, Logical),
       fpcr := Merged(c.fpcr, FPCR_MXCSR_MASK, FpcrFromMxcsr(s.mxcsr)),
       fpsr := Merged(c.fpsr, FPSR_MXCSR_MASK, FpsrFromMxcsr(s.mxcsr)),
       x64Mxcsr := s.mxcsr, x64Fcw := s.fcw, x64Fsw := s.fsw, v := s.xmm, x87 := s.x87, isa := ISA_ARM64EC)
  }

  /** What the x64 side does not see. */
  ghost predicate ArmKept(c: ThreadContext, r: ThreadContext)
    requires Shaped(c) && Shaped(r)
  {
    && (forall i :: 0 <= i < 31 && ArmOnly(i) ==> r.x[i] == c.x[i])
    && Same(r.nzcv, c.nzcv, 0x0fff_ffff) && Same(r.fpcr, c.fpcr, 0xfe3f_60ff) && Same(r.fpsr, c.fpsr, 0xffff_ff60)
    && r.teb == c.teb && r.originalX64Sp == c.originalX64Sp && r.cookie == c.cookie && r.stopReason == c.stopReason
    && r.layoutOk == c.layoutOk
  }

  ghost predicate Same(v: bv32, w: bv32, mask: bv32) {
    v & mask == w & mask
  }

  lemma BitsKept(c: ThreadContext, s: X64Context)
    ensures Same(NzcvFromRflags(s.rflags, c.nzcv, Logical), c.nzcv, 0x0fff_ffff)
    ensures Same(Merged(c.fpcr, FPCR_MXCSR_MASK, FpcrFromMxcsr(s.mxcsr)), c.fpcr, 0xfe3f_60ff)
    ensures Same(Merged(c.fpsr, FPSR_MXCSR_MASK, FpsrFromMxcsr(s.mxcsr)), c.fpsr, 0xffff_ff60)
  {
    hide NzcvFromRflags, FpcrFromMxcsr, FpsrFromMxcsr, Merged, Same;
    FlagsKept(s.rflags, c.nzcv);
    ControlKept(c.fpcr, s.mxcsr);
    StatusKept(c.fpsr, s.mxcsr);
  }

  lemma FlagsKept(rflags: bv64, nzcv: bv32)
    ensures Same(NzcvFromRflags(rflags, nzcv, Logical), nzcv, 0x0fff_ffff)
  {
    hide NzcvFromRflags, RflagsFromNzcv;
    FlagsReturnFromX64(rflags, nzcv, Logical);
  }

  lemma ControlKept(fpcr: bv32, mxcsr: bv32)
    ensures Same(Merged(fpcr, FPCR_MXCSR_MASK, FpcrFromMxcsr(mxcsr)), fpcr, 0xfe3f_60ff)
  {
  }

  lemma StatusKept(fpsr: bv32, mxcsr: bv32)
    ensures Same(Merged(fpsr, FPSR_MXCSR_MASK, FpsrFromMxcsr(mxcsr)), fpsr, 0xffff_ff60)
  {
  }

  lemma Given(c: ThreadContext, s: X64Context)
    requires Shaped(c) && Valid(c) && c.isa == ISA_ARM64EC && ShapedX64(s) && s.teb == c.teb && Convertible(s.mxcsr)
    ensures var r := Converted(c, s);
            && ArmKept(c, r) && ToX64(r) == Some(s.(mxcsr := s.mxcsr & 0xffff)) && Views(r, s.(mxcsr := s.mxcsr & 0xffff))
            && r.isa == 1 && r.x64Rflags == s.rflags && r.x64Mxcsr == s.mxcsr
  {
    hide WithGpr, NzcvFromRflags, FpcrFromMxcsr, FpsrFromMxcsr, Merged, GprOf, Converted, ToX64, ArmKept, Views;
    ConvertedThere(c, s);
    ConvertedFields(c, s);
    ToX64Views(Converted(c, s));
  }

  /** A valid thread given x64 registers shows them again, and keeps the rest. */
  lemma ConvertedThere(c: ThreadContext, s: X64Context)
    requires Shaped(c) && Valid(c) && c.isa == ISA_ARM64EC && ShapedX64(s) && s.teb == c.teb && Convertible(s.mxcsr)
    ensures Valid(Converted(c, s)) && ArmKept(c, Converted(c, s))
    ensures ToX64(Converted(c, s)) == Some(s.(mxcsr := s.mxcsr & 0xffff))
  {
    hide RflagsFromNzcv, MxcsrFromFp, NzcvFromRflags, FpcrFromMxcsr, FpsrFromMxcsr, WithGpr, Merged, Convertible, Converted, GprOf,
         ArmOnly, Same;
    ConvertedFields(c, s);
    OthersKept(c, s.gpr);
    RflagsBack(s.rflags, c.nzcv);
    MxcsrThrough(s.mxcsr, c.fpcr, c.fpsr);
    BitsKept(c, s);
  }

  lemma RflagsBack(rflags: bv64, nzcv: bv32)
    ensures RflagsFromNzcv(NzcvFromRflags(rflags, nzcv, Logical), rflags, Logical) == rflags
  {
    hide RflagsFromNzcv, NzcvFromRflags;
    FlagsReturnFromX64(rflags, nzcv, Logical);
  }

  lemma ConvertedFields(c: ThreadContext, s: X64Context)
    requires Shaped(c) && Valid(c) && ShapedX64(s)
    ensures var r := Converted(c, s);
            && GprOf(r) == s.gpr && r.x == WithGpr(c, s.gpr).x && r.x[18] == c.teb
            && r == c.(x := r.x, sp := r.sp, pc := s.rip, x64Rflags := s.rflags, nzcv := NzcvFromRflags(s.rflags, c.nzcv, Logical),
                       fpcr := Merged(c.fpcr, FPCR_MXCSR_MASK, FpcrFromMxcsr(s.mxcsr)),
                       fpsr := Merged(c.fpsr, FPSR_MXCSR_MASK, FpsrFromMxcsr(s.mxcsr)),
                       x64Mxcsr := s.mxcsr, x64Fcw := s.fcw, x64Fsw := s.fsw, v := s.xmm, x87 := s.x87, isa := ISA_ARM64EC)
  {
    hide WithGpr, NzcvFromRflags, FpcrFromMxcsr, FpsrFromMxcsr, Merged, GprOf;
    GprRead(c, s.gpr);
    OthersKept(c, s.gpr);
    assert WithGpr(c, s.gpr).x[18 := c.teb] == WithGpr(c, s.gpr).x;
    SameRegisters(WithGpr(c, s.gpr), Converted(c, s));
  }

  lemma SameRegisters(c: ThreadContext, r: ThreadContext)
    requires Shaped(c) && Shaped(r) && r.x == c.x && r.sp == c.sp
    ensures GprOf(r) == GprOf(c)
  {
  }

  lemma MaskSplit(v: bv32, mask: bv32)
    ensures Merged(v, mask, v & mask) == v
  {
  }

  lemma ConvertedBack(c: ThreadContext)
    requires Shaped(c) && Valid(c) && c.isa == ISA_ARM64EC
    ensures ToX64(c).Some? && ShapedX64(ToX64(c).value)
    ensures Converted(c, ToX64(c).value) == c.(
              x64Rflags := RflagsFromNzcv(c.nzcv, c.x64Rflags, Logical), x64Mxcsr := MxcsrFromFp(c.fpcr, c.fpsr))
  {
    hide RflagsFromNzcv, MxcsrFromFp, NzcvFromRflags, FpcrFromMxcsr, FpsrFromMxcsr, WithGpr, Merged;
    SameGpr(c);
    FlagsReturn(c.nzcv, c.x64Rflags, Logical);
    ControlReturns(c.fpcr, c.fpsr);
    StatusReturns(c.fpcr, c.fpsr);
    MaskSplit(c.fpcr, FPCR_MXCSR_MASK);
    MaskSplit(c.fpsr, FPSR_MXCSR_MASK);
    assert c.x[18 := c.teb] == c.x;
  }
}

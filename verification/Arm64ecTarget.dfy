/**
 Resolving a call target inside an ARM64X image: redirections are followed under a hop limit, and the
 address at the end is told apart by instruction set.
 */
module Arm64ecTarget {
  import opened Options
  import opened Arm64xImage
  import opened Arm64xLayout

  datatype TargetStatus =
    | TargetOk | TargetInvalidArgument | TargetOverflow | OutsideImage | NotExecutable | MalformedMetadata | Misaligned | CfgDenied

  datatype TargetKind = Arm64Target | Arm64ecTarget | X64Boundary

  datatype Resolution = Resolution(
    status: TargetStatus, kind: TargetKind, requestedRva: nat, resolvedRva: nat, resolvedVa: nat, hops: nat)

  function Failed(status: TargetStatus): Resolution {
    Resolution(status, X64Boundary, 0, 0, 0, 0)
  }

  // ---- Redirection chains ----

  predicate Redirected(image: Image, rva: nat) {
    RedirectionOf(image.redirections, rva).Some?
  }

  function Hop(image: Image, rva: nat): nat {
    var r := RedirectionOf(image.redirections, rva);
    if r.Some? then image.redirections[r.value].destination else rva
  }

  /** The address after `k` hops. */
  function After(image: Image, rva: nat, k: nat): nat {
    if k == 0 then rva else Hop(image, After(image, rva, k - 1))
  }

  /** The chain leads back to an address it has left before. */
  ghost predicate EntersCycle(image: Image, rva: nat) {
    exists i: nat, j: nat :: i < j && After(image, rva, i) == After(image, rva, j) && RedirectedUpTo(image, rva, j)
  }

  /** The first `k` addresses of the chain are all redirected. */
  ghost predicate RedirectedUpTo(image: Image, rva: nat, k: nat) {
    forall i: nat :: i < k ==> Redirected(image, After(image, rva, i))
  }

  lemma {:induction false} AfterAgain(image: Image, rva: nat, i: nat, k: nat)
    ensures After(image, After(image, rva, i), k) == After(image, rva, i + k)
    decreases k
  {
    if k > 0 {
      AfterAgain(image, rva, i, k - 1);
    }
  }

  /** Once a chain has come back to an address, it never ends. */
  lemma {:induction false} CycleNeverEnds(image: Image, rva: nat, i: nat, j: nat, k: nat)
    requires i < j && After(image, rva, i) == After(image, rva, j) && RedirectedUpTo(image, rva, j)
    ensures Redirected(image, After(image, rva, k))
    decreases k
  {
    hide Redirected, Hop, After;
    if k >= j {
      AfterAgain(image, rva, i, k - j);
      AfterAgain(image, rva, j, k - j);
      CycleNeverEnds(image, rva, i, j, k - (j - i));
    }
  }

  /** Which redirection leaves each of the first `n` addresses of the chain. */
  ghost function Sources(image: Image, rva: nat, n: nat): (s: seq<nat>)
    requires RedirectedUpTo(image, rva, n)
    ensures |s| == n
    ensures forall i :: 0 <= i < n ==> s[i] < |image.redirections| && image.redirections[s[i]].source == After(image, rva, i)
  {
    seq(n, i requires 0 <= i < n => RedirectionOf(image.redirections, After(image, rva, i)).value)
  }

  /** More entries than values: some value occurs twice. */
  lemma {:induction false} Pigeonhole(s: seq<nat>, n: nat) returns (i: nat, j: nat)
    requires |s| > n && forall k :: 0 <= k < |s| ==> s[k] < n
    ensures i < j < |s| && s[i] == s[j]
    decreases n
  {
    var last := |s| - 1;
    if exists k :: 0 <= k < last && s[k] == s[last] {
      var k :| 0 <= k < last && s[k] == s[last];
      return k, last;
    }
    var t := seq(last, k requires 0 <= k < last => if s[k] > s[last] then s[k] - 1 else s[k]);
    i, j := Pigeonhole(t, n - 1);
  }

  /** A chain of more redirected addresses than there are redirections has come back to one of them. */
  lemma LongChainCycles(image: Image, rva: nat)
    requires RedirectedUpTo(image, rva, |image.redirections| + 1)
    ensures EntersCycle(image, rva)
  {
    var n := |image.redirections|;
    var s := Sources(image, rva, n + 1);
    var i, j := Pigeonhole(s, n);
    assert After(image, rva, i) == After(image, rva, j) && RedirectedUpTo(image, rva, j);
  }

  // ---- The end of a chain ----

  /** `classify_terminal`. */
  function Terminal(image: Image, rva: nat, resolvedVa: nat): (r: (TargetStatus, TargetKind))
    ensures r.0 in {TargetOk, OutsideImage, NotExecutable, MalformedMetadata, Misaligned}
  {
    var info := Classified(image, rva);
    var kind :=
      match info.classification
      case Arm64 => Some(Arm64Target)
      case Arm64ec => Some(Arm64ecTarget)
      case X64 => Some(X64Boundary)
      case Thunk =>
        (match info.codeMapIsa
         case Arm64ec => Some(Arm64ecTarget)
         case Arm64 => Some(Arm64Target)
         case X64 => Some(X64Boundary)
         case _ => None)
      case _ => None;
    if info.classification == Invalid then
      (if rva >= image.sizeOfImage then OutsideImage else NotExecutable, X64Boundary)
    else if !info.executable then (NotExecutable, X64Boundary)
    else if kind.None? then (if info.classification == Thunk then MalformedMetadata else NotExecutable, X64Boundary)
    else if kind.value != X64Boundary && resolvedVa % 4 != 0 then (Misaligned, X64Boundary)
    else (TargetOk, kind.value)
  }

  lemma CodeIsCode(image: Image, rva: nat)
    requires WellFormed(image) && CodeRangeOf(image.codeRanges, rva).Some?
    ensures image.codeRanges[CodeRangeOf(image.codeRanges, rva).value].isa in {Arm64, Arm64ec, X64}
  {
    assert CodeRangeFits(image.codeRanges[CodeRangeOf(image.codeRanges, rva).value], image.sections, image.sizeOfImage);
  }

  /** An entry-range address is never taken for ARM code, and its metadata is never found malformed. */
  lemma ThunkStopsAtX64(image: Image, rva: nat, resolvedVa: nat)
    requires WellFormed(image) && Classified(image, rva).classification == Thunk
    ensures Terminal(image, rva, resolvedVa).0 in {TargetOk, NotExecutable}
    ensures Terminal(image, rva, resolvedVa).0 == TargetOk ==> Terminal(image, rva, resolvedVa).1 == X64Boundary
  {
    hide WellFormed, SectionOf, EntryRangeOf, RedirectionOf;
    if CodeRangeOf(image.codeRanges, rva).Some? {
      CodeIsCode(image, rva);
    }
    ThunkIsX64(image, rva);
  }

  // ---- Resolution ----

  predicate TargetMap(image: Image, base: nat) {
    WellFormed(image) && base + image.sizeOfImage <= UINT64_MAX
  }

  lemma DestinationInside(image: Image, rva: nat)
    requires WellFormed(image) && rva < image.sizeOfImage
    ensures Hop(image, rva) < image.sizeOfImage
  {
  }

  lemma {:induction false} ChainInside(image: Image, rva: nat, k: nat)
    requires WellFormed(image) && rva < image.sizeOfImage
    ensures After(image, rva, k) < image.sizeOfImage
    decreases k
  {
    hide WellFormed;
    if k > 0 {
      ChainInside(image, rva, k - 1);
      DestinationInside(image, After(image, rva, k - 1));
    }
  }

  lemma ClassifiedRedirection(image: Image, rva: nat)
    requires rva < image.sizeOfImage
    ensures Classified(image, rva).redirection == if Redirected(image, rva) then Some(Hop(image, rva)) else None
  {
  }

  /** The chain from an address ends after `k` hops, at an acceptable target of this kind. */
  ghost predicate EndsAt(image: Image, base: nat, rva: nat, k: nat, target: nat, kind: TargetKind) {
    var end := After(image, rva, k);
    && RedirectedUpTo(image, rva, k) && !Redirected(image, end)
    && target == base + end && Terminal(image, end, target) == (TargetOk, kind)
  }

  ghost predicate ChainEnds(image: Image, base: nat, rva: nat, target: nat, kind: TargetKind) {
    exists k: nat :: EndsAt(image, base, rva, k, target, kind)
  }

  /** An address of the image resolves to a target. */
  ghost predicate ResolvesTo(image: Image, base: nat, va: nat, target: nat, kind: TargetKind) {
    base <= va < base + image.sizeOfImage && ChainEnds(image, base, va - base, target, kind)
  }

  /** A chain ends in one place at most, and then it enters no cycle. */
  lemma EndsOnce(image: Image, base: nat, rva: nat, target: nat, kind: TargetKind, hops: nat)
    requires ChainEnds(image, base, rva, target, kind)
    ensures !EntersCycle(image, rva)
    ensures RedirectedUpTo(image, rva, hops) && !Redirected(image, After(image, rva, hops)) ==>
              target == base + After(image, rva, hops) && Terminal(image, After(image, rva, hops), target) == (TargetOk, kind)
  {
    hide Terminal, Redirected, After, EntersCycle, RedirectedUpTo;
    var k: nat :| EndsAt(image, base, rva, k, target, kind);
    EndedIsNoCycle(image, rva, k);
    if RedirectedUpTo(image, rva, hops) && !Redirected(image, After(image, rva, hops)) {
      SameEnd(image, rva, k, hops);
    }
  }

  /** `Resolve` finds the target exactly if there is one. */
  method Find(image: Image, base: nat, va: nat) returns (r: Resolution)
    requires TargetMap(image, base)
    ensures r.status == TargetOk ==> ResolvesTo(image, base, va, r.resolvedVa, r.kind)
    ensures forall target: nat, kind: TargetKind :: ResolvesTo(image, base, va, target, kind) ==>
              r.status == TargetOk && r.resolvedVa == target && r.kind == kind
    ensures r.status in {TargetOk, OutsideImage, NotExecutable, MalformedMetadata, Misaligned}
  {
    hide WellFormed, Terminal, Redirected, EntersCycle, ChainEnds, After, RedirectedUpTo;
    r := Resolve(image, base, va);
    if r.status == TargetOk {
      assert EndsAt(image, base, va - base, r.hops, r.resolvedVa, r.kind);
      Ended(image, base, va - base, r.hops, r.resolvedVa, r.kind);
    }
    forall target: nat, kind: TargetKind | ResolvesTo(image, base, va, target, kind)
      ensures r.status == TargetOk && r.resolvedVa == target && r.kind == kind
    {
      EndsOnce(image, base, va - base, target, kind, r.hops);
    }
  }

  lemma Ended(image: Image, base: nat, rva: nat, k: nat, target: nat, kind: TargetKind)
    requires EndsAt(image, base, rva, k, target, kind)
    ensures ChainEnds(image, base, rva, target, kind)
  {
  }

  /**
   `gem_arm64ec_target_resolve`.  The hop limit is one more than the number of redirections; it is reached
   exactly when the chain from the requested address enters a cycle.
   */
  method Resolve(image: Image, base: nat, requestedVa: nat) returns (r: Resolution)
    requires TargetMap(image, base)
    ensures r.status in {TargetOk, OutsideImage, NotExecutable, MalformedMetadata, Misaligned}
    ensures requestedVa < base || requestedVa >= base + image.sizeOfImage <==> r == Failed(OutsideImage)
    ensures base <= requestedVa < base + image.sizeOfImage ==>
              var rva := requestedVa - base;
              && (EntersCycle(image, rva) <==> r.status == MalformedMetadata)
              && (!EntersCycle(image, rva) ==>
                    var end := After(image, rva, r.hops);
                    && RedirectedUpTo(image, rva, r.hops) && !Redirected(image, end)
                    && r.status == Terminal(image, end, base + end).0
                    && (r.status == TargetOk ==>
                          r == Resolution(TargetOk, Terminal(image, end, base + end).1, rva, end, base + end, r.hops)))
  {
    hide WellFormed, RedirectionOf, Classified;
    if requestedVa < base || requestedVa >= base + image.sizeOfImage {
      return Failed(OutsideImage);
    }
    var requested := requestedVa - base;
    var rva := requested;
    var limit := |image.redirections| + 1;
    var hop := 0;
    while hop < limit
      invariant hop <= limit && rva == After(image, requested, hop)
      invariant RedirectedUpTo(image, requested, hop)
      decreases limit - hop
    {
      ChainInside(image, requested, hop);
      ClassifiedRedirection(image, rva);
      var info := Classify(image, rva);
      if info.redirection.None? {
        break;
      }
      rva := info.redirection.value;
      hop := hop + 1;
    }
    if hop == limit {
      LongChainCycles(image, requested);
      return Failed(MalformedMetadata);
    }
    ChainInside(image, requested, hop);
    ClassifiedRedirection(image, rva);
    EndedIsNoCycle(image, requested, hop);
    TerminalInside(image, rva, base + rva);
    NeverMalformed(image, rva, base + rva);
    var terminal := Terminal(image, rva, base + rva);
    if terminal.0 != TargetOk {
      return Failed(terminal.0).(hops := hop);
    }
    r := Resolution(TargetOk, terminal.1, requested, rva, base + rva, hop);
  }

  lemma NeverMalformed(image: Image, rva: nat, va: nat)
    requires WellFormed(image)
    ensures Terminal(image, rva, va).0 != MalformedMetadata
  {
    hide WellFormed, Classified;
    if Classified(image, rva).classification == Thunk {
      ThunkStopsAtX64(image, rva, va);
    }
  }

  lemma TerminalInside(image: Image, rva: nat, va: nat)
    requires rva < image.sizeOfImage
    ensures Terminal(image, rva, va).0 != OutsideImage
  {
  }

  lemma EndedIsNoCycle(image: Image, rva: nat, k: nat)
    requires !Redirected(image, After(image, rva, k))
    ensures !EntersCycle(image, rva)
  {
    if EntersCycle(image, rva) {
      var i: nat, j: nat :| i < j && After(image, rva, i) == After(image, rva, j) && RedirectedUpTo(image, rva, j);
      CycleNeverEnds(image, rva, i, j, k);
    }
  }

  /** The end of a chain, given that it ends. */
  lemma {:induction false} SameEnd(image: Image, rva: nat, j: nat, k: nat)
    requires RedirectedUpTo(image, rva, j) && !Redirected(image, After(image, rva, j))
    requires RedirectedUpTo(image, rva, k) && !Redirected(image, After(image, rva, k))
    ensures j == k
  {
  }

  /** A resolved address resolves to itself, with the same kind and without a hop. */
  method ResolveAgain(image: Image, base: nat, requestedVa: nat) returns (r: Resolution, again: Resolution)
    requires TargetMap(image, base)
    ensures r.status == TargetOk ==>
              && again.status == TargetOk && again.resolvedVa == r.resolvedVa && again.kind == r.kind && again.hops == 0
  {
    hide WellFormed, Terminal, Redirected, Hop, EntersCycle;
    r := Resolve(image, base, requestedVa);
    again := Failed(OutsideImage);
    if r.status == TargetOk {
      ChainInside(image, requestedVa - base, r.hops);
      again := Resolve(image, base, r.resolvedVa);
      assert After(image, r.resolvedRva, 0) == r.resolvedRva;
      EndedIsNoCycle(image, r.resolvedRva, 0);
      SameEnd(image, r.resolvedRva, 0, again.hops);
    }
  }

  // ---- Resolution without hops and classes ----

  /** A redirection leads from one address to the other. */
  ghost predicate Leads(image: Image, from: nat, to: nat) {
    exists i: nat :: IsSource(image, from, i) && image.redirections[i].destination == to
  }

  /** Redirections lead along the path, and none on from its end. */
  ghost predicate Path(image: Image, rva: nat, path: seq<nat>, end: nat) {
    && path != [] && path[0] == rva && path[|path| - 1] == end
    && (forall k :: 0 < k < |path| ==> Leads(image, path[k - 1], path[k]))
    && forall i: nat :: !IsSource(image, end, i)
  }

  /** Redirections lead from one address to the other, and no further. */
  ghost predicate Ends(image: Image, rva: nat, end: nat) {
    exists path :: Path(image, rva, path, end)
  }

  ghost function KindOf(isa: RvaClass): TargetKind {
    match isa
    case Arm64 => Arm64Target
    case Arm64ec => Arm64ecTarget
    case _ => X64Boundary
  }

  /** Code of this kind that may run, and aligned if it is ARM code. */
  ghost predicate Runs(image: Image, rva: nat, va: nat, kind: TargetKind) {
    && InCode(image, rva) && (exists i: nat :: InCodeRange(image, rva, i) && kind == KindOf(image.codeRanges[i].isa))
    && (kind == X64Boundary || va % 4 == 0)
  }

  /** Where no redirection leads on, an address is accepted exactly as code that runs, and refused for what it lacks. */
  lemma TerminalMeans(image: Image, rva: nat, va: nat, kind: TargetKind)
    requires WellFormed(image) && rva < image.sizeOfImage && forall i: nat :: !IsSource(image, rva, i)
    ensures Terminal(image, rva, va) == (TargetOk, kind) <==> Runs(image, rva, va, kind)
    ensures Terminal(image, rva, va).0
         == if !InCode(image, rva) || (forall i: nat :: !InCodeRange(image, rva, i)) then NotExecutable
            else if Terminal(image, rva, va).0 == TargetOk then TargetOk else Misaligned
  {
    hide SectionOf, CodeRangeOf, EntryRangeOf, RedirectionOf, Classified, WellFormed;
    var info := Classified(image, rva);
    ClassifiedMeans(image, rva);
    ExecutableMeans(image, rva);
    if i: nat :| InEntry(image, rva, i) {
      FoundAnEntry(image, rva, i);
      ThunkIsX64(image, rva);
    }
    if i: nat :| InCodeRange(image, rva, i) {
      RangeIsCode(image, rva, i);
    }
  }

  lemma FoundAnEntry(image: Image, rva: nat, i: nat)
    requires WellFormed(image) && InEntry(image, rva, i)
    ensures EntryRangeOf(image.entryRanges, rva).Some?
  {
    hide WellFormed;
  }

  lemma RangeIsCode(image: Image, rva: nat, i: nat)
    requires WellFormed(image) && InCodeRange(image, rva, i)
    ensures image.codeRanges[i].isa in {RvaClass.Arm64, RvaClass.Arm64ec, RvaClass.X64}
    ensures forall j: nat :: InCodeRange(image, rva, j) ==> j == i
  {
    assert CodeRangeFits(image.codeRanges[i], image.sections, image.sizeOfImage);
  }

  lemma ExecutableMeans(image: Image, rva: nat)
    requires WellFormed(image) && rva < image.sizeOfImage
    ensures Classified(image, rva).executable <==> InCode(image, rva)
  {
    CodeIsExecutable(image, rva);
  }

  /** One hop is one redirection. */
  lemma HopLeads(image: Image, from: nat, to: nat)
    requires WellFormed(image)
    ensures Leads(image, from, to) <==> Redirected(image, from) && Hop(image, from) == to
    ensures Redirected(image, from) <==> exists i: nat :: IsSource(image, from, i)
  {
    hide SectionsOk, CodeRangesOk, EntryRangesOk;
    FoundSource(image, from);
  }

  lemma {:induction false} PathIsChain(image: Image, rva: nat, path: seq<nat>, end: nat, k: nat)
    requires WellFormed(image) && Path(image, rva, path, end) && k < |path|
    ensures path[k] == After(image, rva, k) && RedirectedUpTo(image, rva, k)
    decreases k
  {
    hide WellFormed, Redirected, Hop, Leads;
    if k > 0 {
      PathIsChain(image, rva, path, end, k - 1);
      assert Leads(image, path[k - 1], path[k]);
      HopLeads(image, path[k - 1], path[k]);
    }
  }

  lemma ChainIsPath(image: Image, rva: nat, k: nat)
    requires WellFormed(image) && RedirectedUpTo(image, rva, k) && !Redirected(image, After(image, rva, k))
    ensures exists path :: Path(image, rva, path, After(image, rva, k))
  {
    hide WellFormed, Redirected, Hop, Leads;
    var path := seq(k + 1, i requires 0 <= i < k + 1 => After(image, rva, i));
    forall i | 0 < i < |path| ensures Leads(image, path[i - 1], path[i]) {
      HopLeads(image, path[i - 1], path[i]);
    }
    HopLeads(image, path[k], path[k]);
    assert Path(image, rva, path, path[k]);
  }

  /** An address resolves exactly when redirections lead from it to code that runs, and to that code. */
  lemma ResolvesExactly(image: Image, base: nat, va: nat, target: nat, kind: TargetKind)
    requires TargetMap(image, base)
    ensures ResolvesTo(image, base, va, target, kind)
       <==> && base <= va < base + image.sizeOfImage
            && target >= base && Ends(image, va - base, target - base) && Runs(image, target - base, target, kind)
  {
    hide WellFormed, Terminal, Redirected, Runs, After, RedirectedUpTo, Path;
    if base <= va < base + image.sizeOfImage {
      var rva := va - base;
      if ChainEnds(image, base, rva, target, kind) {
        var k: nat :| EndsAt(image, base, rva, k, target, kind);
        ChainIsPath(image, rva, k);
        var path :| Path(image, rva, path, After(image, rva, k));
        EndIsInside(image, rva, path, After(image, rva, k));
        TerminalMeans(image, After(image, rva, k), target, kind);
      }
      if target >= base && Ends(image, rva, target - base) && Runs(image, target - base, target, kind) {
        var end := target - base;
        var path :| Path(image, rva, path, end);
        EndIsInside(image, rva, path, end);
        TerminalMeans(image, end, target, kind);
        assert EndsAt(image, base, rva, |path| - 1, target, kind);
      }
    }
  }

  lemma EndIsInside(image: Image, rva: nat, path: seq<nat>, end: nat)
    requires WellFormed(image) && rva < image.sizeOfImage && Path(image, rva, path, end)
    ensures path != [] && end < image.sizeOfImage && end == After(image, rva, |path| - 1)
    ensures RedirectedUpTo(image, rva, |path| - 1) && !Redirected(image, end)
    ensures forall i: nat :: !IsSource(image, end, i)
  {
    hide WellFormed, Redirected, Hop, Leads;
    PathIsChain(image, rva, path, end, |path| - 1);
    ChainInside(image, rva, |path| - 1);
    HopLeads(image, end, 0);
  }

  /** The hop limit is met exactly by chains of redirections that have no end. */
  lemma EndlessExactly(image: Image, rva: nat)
    requires WellFormed(image) && rva < image.sizeOfImage
    ensures EntersCycle(image, rva) <==> !exists end :: Ends(image, rva, end)
  {
    hide WellFormed, Redirected, Hop, Leads, EntersCycle, Path;
    forall path, end: nat | Path(image, rva, path, end) ensures !EntersCycle(image, rva) {
      EndIsInside(image, rva, path, end);
      EndedIsNoCycle(image, rva, |path| - 1);
    }
    if !EntersCycle(image, rva) {
      var n := |image.redirections| + 1;
      if RedirectedUpTo(image, rva, n) {
        LongChainCycles(image, rva);
      }
      var k := FirstEnd(image, rva, n);
      ChainIsPath(image, rva, k);
      assert Ends(image, rva, After(image, rva, k));
    }
  }

  lemma {:induction false} FirstEnd(image: Image, rva: nat, n: nat) returns (k: nat)
    requires !RedirectedUpTo(image, rva, n)
    ensures RedirectedUpTo(image, rva, k) && !Redirected(image, After(image, rva, k))
    decreases n
  {
    hide Redirected, After;
    if RedirectedUpTo(image, rva, n - 1) {
      k := n - 1;
    } else {
      k := FirstEnd(image, rva, n - 1);
    }
  }

  // ---- The call checker ----

  datatype Registers = Registers(x9: nat, x10: nat, x11: nat)

  class CheckedThread {
    var registers: Registers
    var arm64ec: bool

    constructor (registers: Registers, arm64ec: bool)
      ensures this.registers == registers && this.arm64ec == arm64ec
    {
      this.registers, this.arm64ec := registers, arm64ec;
    }

    /**
     `gem_arm64ec_checker_dispatch` accepts exactly an ARM64EC thread whose x11 resolves, is authorized and, if it
     resolves to x64 code, comes with an x10 that resolves to ARM code.  Only then, and only for an x64 target,
     do registers change: x9 gets the target and x11 what x10 resolves to.
     */
    method Dispatch(image: Image, base: nat, authorized: Option<bool>) returns (r: Resolution)
      requires TargetMap(image, base)
      modifies this`registers
      ensures r.status == TargetOk <==> Accepted(image, base, old(registers), authorized)
      ensures r.status == TargetOk ==> ResolvesTo(image, base, old(registers).x11, r.resolvedVa, r.kind)
      ensures r.status == TargetInvalidArgument <==> !arm64ec
      ensures r.status == CfgDenied <==>
                && arm64ec && authorized == Some(false)
                && exists target: nat, kind: TargetKind :: ResolvesTo(image, base, old(registers).x11, target, kind)
      ensures r.status == TargetOk && r.kind == X64Boundary ==>
                && registers == Registers(old(registers).x11, old(registers).x10, registers.x11)
                && exists kind :: kind != X64Boundary && ResolvesTo(image, base, old(registers).x10, registers.x11, kind)
      ensures r.status != TargetOk || r.kind != X64Boundary ==> registers == old(registers)
    {
      hide WellFormed, ResolvesTo;
      if !arm64ec {
        return Failed(TargetInvalidArgument);
      }
      r := Find(image, base, registers.x11);
      if r.status != TargetOk {
        return;
      }
      if authorized == Some(false) {
        return Failed(CfgDenied);
      }
      if r.kind == X64Boundary {
        var thunk := Find(image, base, registers.x10);
        if thunk.status != TargetOk {
          return thunk;
        }
        if thunk.kind == X64Boundary {
          return Failed(NotExecutable);
        }
        registers := Registers(registers.x11, registers.x10, thunk.resolvedVa);
      }
    }

    ghost predicate Accepted(image: Image, base: nat, registers: Registers, authorized: Option<bool>)
      reads this`arm64ec
    {
      && arm64ec && authorized != Some(false)
      && exists target: nat, kind: TargetKind ::
           && ResolvesTo(image, base, registers.x11, target, kind)
           && (kind == X64Boundary ==>
                 exists thunk: nat, of: TargetKind :: of != X64Boundary && ResolvesTo(image, base, registers.x10, thunk, of))
    }
  }
}

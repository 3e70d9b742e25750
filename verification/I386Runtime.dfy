/**
 The i386 run loop: instructions in quanta, each inside an optimistic memory transaction that is thrown
 away and retried with a smaller quantum when another thread got in between.
 */
module I386Runtime {
  import opened StopReasons

  const MAX_QUANTUM := 256
  const YIELD_AFTER := 8
  const WORD32 := 0x1_0000_0000

  /** A guest context; `registers` stands for everything the loop does not look at. */
  datatype Context = Context(registers: nat, stopReason: StopReason, wellFormed: bool)

  datatype Finish = Committed | Conflicted | Broken

  /** What the backend and the transaction around it report for one quantum. */
  datatype Quantum = Quantum(
    begun: bool, reason: StopReason, output: Context, retired: nat,
    memoryConflict: bool, restartable: bool, finish: Finish)

  /** The i-th quantum, from a context and with a budget. */
  type Backend = (nat, Context, nat) -> Quantum

  /**
   What is asked of a backend: it retires at most what it is given, at least one instruction when it gives no
   reason to stop, and leaves running out of budget to the loop.
   */
  ghost predicate WellBehaved(backend: Backend) {
    forall i: nat, c: Context, q: nat ::
      var r := backend(i, c, q);
      r.retired <= q && (r.reason == NoStop ==> r.retired > 0) && r.reason != BudgetExpired
  }

  /** Nobody interferes and nothing asks to stop. */
  ghost predicate Undisturbed(backend: Backend) {
    forall i: nat, c: Context, q: nat | q > 0 && c.wellFormed ::
      var r := backend(i, c, q);
      r.begun && r.reason == NoStop && r.finish == Committed && !r.memoryConflict && r.output.wellFormed
  }

  predicate IsQuantum(n: nat) {
    n in {1, 2, 4, 8, 16, 32, 64, 128, 256}
  }

  function Halved(n: nat): nat { if n > 1 then n / 2 else n }

  function Doubled(n: nat): nat {
    var m := if n < MAX_QUANTUM then n * 2 else n;
    if m > MAX_QUANTUM then MAX_QUANTUM else m
  }

  lemma QuantumKept(n: nat)
    requires IsQuantum(n)
    ensures IsQuantum(Halved(n)) && IsQuantum(Doubled(n)) && 1 <= n <= MAX_QUANTUM
  {
  }

  lemma HalvedDoubled(n: nat)
    requires IsQuantum(n)
    ensures Halved(n) == (if n == 1 then 1 else n / 2) && Doubled(n) == if n == 256 then 256 else 2 * n
  {
  }

  /** What is made of a quantum before it is looked at: a conflict undoes it. */
  function Taken(r: Quantum, input: Context): Quantum {
    if r.finish == Conflicted then r.(output := input, retired := 0, memoryConflict := true, reason := MemoryFault)
    else if r.finish == Broken then r.(reason := InvariantViolation)
    else r
  }

  /** Whether the quantum's context counts: it got somewhere, or it stopped for a reason that says so. */
  predicate Advances(r: Quantum) {
    || r.retired != 0
    || r.reason in {NoStop, HostReturn, Syscall, AsyncRequest}
    || (r.reason == MemoryFault && r.restartable)
  }

  /** Why a quantum that was not undone stopped: a transaction that broke overrides the backend. */
  ghost function Stopped(r: Quantum): StopReason {
    if r.finish == Broken then InvariantViolation else r.reason
  }

  /** A quantum whose context is taken: some instruction is through, or the reason says that the context is one to go on from. */
  ghost predicate Through(r: Quantum) {
    || r.retired > 0 || Stopped(r) == NoStop || Stopped(r) == HostReturn || Stopped(r) == Syscall || Stopped(r) == AsyncRequest
    || (Stopped(r) == MemoryFault && r.restartable)
  }

  /** What a quantum that was not undone comes to: a context that may not be taken is a broken invariant. */
  ghost function Outcome(r: Quantum): StopReason {
    if Through(r) && !r.output.wellFormed then InvariantViolation else Stopped(r)
  }

  ghost predicate Disturbed(r: Quantum) {
    r.finish == Conflicted || (Outcome(r) == MemoryFault && r.memoryConflict)
  }

  class I386Machine {
    const maxBudget: nat
    var context: Context
    var running: bool
    var backendFailed: bool
    var quantumBudget: nat
    var consecutiveConflicts: nat
    var quanta: nat
    var retries: nat
    var retiredInstructions: nat
    var lastReason: StopReason
    var lastRetired: nat

    constructor (maxBudget: nat, context: Context)
      ensures Valid() && !running && !backendFailed && this.context == context && this.maxBudget == maxBudget
    {
      this.maxBudget, this.context := maxBudget, context;
      running, backendFailed := false, false;
      quantumBudget, consecutiveConflicts := 64, 0;
      quanta, retries, retiredInstructions := 0, 0, 0;
      lastReason, lastRetired := NoStop, 0;
    }

    predicate Valid()
      reads this
    {
      IsQuantum(quantumBudget) && consecutiveConflicts < YIELD_AFTER
    }

    /** Whether a run with this budget is begun at all. */
    predicate Accepts(budget: nat)
      reads this
    {
      !running && !backendFailed && context.wellFormed && (maxBudget == 0 || budget <= maxBudget)
    }

    /**
     One quantum.  A conflict leaves context and count as they were, even for a restartable string
     instruction, and halves the next quantum; any other turn that goes on has retired something.
     */
    method Turn(i: nat, backend: Backend, remaining: nat) returns (reason: StopReason, retired: nat, more: bool)
      requires Valid() && WellBehaved(backend) && context.wellFormed && remaining > 0
      modifies this`context, this`quantumBudget, this`consecutiveConflicts, this`quanta, this`retries, this`retiredInstructions
      ensures Valid() && context.wellFormed && retired <= remaining
      ensures more ==> reason == NoStop
      ensures !more ==> reason != NoStop && reason != BudgetExpired
      ensures var r := backend(i, old(context), if old(quantumBudget) > remaining then remaining else old(quantumBudget));
              && (!r.begun ==>
                    && reason == InvariantViolation && retired == 0 && context == old(context)
                    && quantumBudget == old(quantumBudget) && retries == old(retries) && quanta == old(quanta))
              && (r.begun ==>
                    && retired == (if r.finish == Conflicted then 0 else r.retired)
                    && context == (if r.finish != Conflicted && Through(r) && r.output.wellFormed then r.output else old(context))
                    && reason == (if Disturbed(r) then NoStop else Outcome(r))
                    && quantumBudget == (if Disturbed(r) then if old(quantumBudget) == 1 then 1 else old(quantumBudget) / 2
                                         else if reason != NoStop then old(quantumBudget)
                                         else if old(quantumBudget) == 256 then 256 else 2 * old(quantumBudget))
                    && retries == old(retries) + (if Disturbed(r) then 1 else 0)
                    && consecutiveConflicts == (if Disturbed(r) then (old(consecutiveConflicts) + 1) % 8 else 0)
                    && quanta == old(quanta) + 1)
      ensures retiredInstructions == old(retiredInstructions) + retired
      ensures more && retries == old(retries) ==> retired > 0
      ensures Undisturbed(backend) ==> more && retired > 0
    {
      hide IsQuantum, Halved, Doubled;
      HalvedDoubled(quantumBudget);
      var quantum := if quantumBudget > remaining then remaining else quantumBudget;
      var r := backend(i, context, quantum);
      QuantumKept(quantumBudget);
      if !r.begun {
        return InvariantViolation, 0, false;
      }
      quanta := quanta + 1;
      r := Taken(r, context);
      reason := Accept(r);
      retired := r.retired;
      retiredInstructions := retiredInstructions + retired;
      more := Adapt(reason == MemoryFault && r.memoryConflict, reason == NoStop);
      if reason == MemoryFault && r.memoryConflict {
        reason := NoStop;
      }
    }

    /** The context a quantum leaves, if it counts; one that is not well formed is refused. */
    method Accept(r: Quantum) returns (reason: StopReason)
      modifies this`context
      ensures Advances(r) && r.output.wellFormed ==> context == r.output && reason == r.reason
      ensures Advances(r) && !r.output.wellFormed ==> context == old(context) && reason == InvariantViolation
      ensures !Advances(r) ==> context == old(context) && reason == r.reason
    {
      reason := r.reason;
      if Advances(r) {
        if !r.output.wellFormed {
          reason := InvariantViolation;
        } else {
          context := r.output;
        }
      }
    }

    /** The next quantum: half after a conflict, double after an undisturbed one. */
    method Adapt(conflict: bool, undisturbed: bool) returns (more: bool)
      requires Valid()
      modifies this`quantumBudget, this`consecutiveConflicts, this`retries
      ensures Valid() && (more <==> conflict || undisturbed)
      ensures retries == old(retries) + if conflict then 1 else 0
      ensures consecutiveConflicts == if conflict then (old(consecutiveConflicts) + 1) % 8 else 0
      ensures quantumBudget == if conflict then Halved(old(quantumBudget))
                               else if undisturbed then Doubled(old(quantumBudget)) else old(quantumBudget)
    {
      QuantumKept(quantumBudget);
      if conflict {
        retries := retries + 1;
        consecutiveConflicts := consecutiveConflicts + 1;
        if quantumBudget > 1 {
          quantumBudget := quantumBudget / 2;
        }
        if consecutiveConflicts >= YIELD_AFTER {
          consecutiveConflicts := 0;
        }
        return true;
      }
      consecutiveConflicts := 0;
      if !undisturbed {
        return false;
      }
      var next := if quantumBudget < MAX_QUANTUM then quantumBudget * 2 else quantumBudget;
      quantumBudget := if next > MAX_QUANTUM then MAX_QUANTUM else next;
      more := true;
    }

    /**
     `gem_i386_runtime_run`, for as many quanta as `turns` allows; `settled` says that the loop came to an end by
     itself.  The budget is never exceeded, running out of it means it was used up, and the number of quanta
     is bounded by what was retired and by how often others interfered.  The count reported is 32 bits wide:
     a run that used up its budget reports it truly exactly when the budget is below 2^32.
     */
    method Run(budget: nat, backend: Backend, turns: nat) returns (reason: StopReason, retired: nat, settled: bool)
      requires Valid() && WellBehaved(backend)
      modifies this
      ensures Valid() && retired <= budget
      ensures settled && reason == BudgetExpired ==> retired == budget
      ensures retiredInstructions == old(retiredInstructions) + retired
      ensures settled && !old(running) ==> !running
      ensures settled ==> lastReason == reason && lastRetired == retired % WORD32
      ensures settled && budget < WORD32 ==> lastRetired == retired
      ensures settled && reason == BudgetExpired ==> (lastRetired == retired <==> budget < WORD32)
      ensures Undisturbed(backend) && turns >= budget && old(Accepts(budget)) ==> settled && reason == BudgetExpired
      ensures !settled ==> quanta <= old(quanta) + turns && turns <= retired + (retries - old(retries))
      ensures settled && reason != InvariantViolation ==> context.stopReason == reason
      ensures old(running || backendFailed || !context.wellFormed) || (maxBudget != 0 && budget > maxBudget) ==>
                && settled && reason == InvariantViolation && retired == 0 && context == old(context) && quanta == old(quanta)
                && quantumBudget == old(quantumBudget) && running == old(running)
      ensures !old(running || backendFailed || !context.wellFormed) && budget == 0 ==>
                && settled && reason == BudgetExpired && retired == 0 && quanta == old(quanta)
                && context == old(context).(stopReason := BudgetExpired)
    {
      retired, settled := 0, true;
      lastReason, lastRetired := NoStop, 0;
      if !Accepts(budget) {
        lastReason := InvariantViolation;
        return InvariantViolation, retired, settled;
      }
      if budget == 0 {
        context := context.(stopReason := BudgetExpired);
        lastReason := BudgetExpired;
        return BudgetExpired, retired, settled;
      }
      running := true;
      reason := BudgetExpired;
      var i, more := 0, true;
      while retired < budget && more && i < turns
        invariant Valid() && context.wellFormed && retired <= budget && i <= turns
        invariant more ==> i <= retired + (retries - old(retries)) && (i > 0 ==> reason == NoStop) && (i == 0 ==> retired == 0)
        invariant !more ==> reason != NoStop && reason != BudgetExpired
        invariant old(retries) <= retries && quanta <= old(quanta) + i
        invariant retiredInstructions == old(retiredInstructions) + retired
        invariant Undisturbed(backend) ==> more && i <= retired
        decreases turns - i
      {
        var n;
        reason, n, more := Turn(i, backend, budget - retired);
        retired := retired + n;
        i := i + 1;
      }
      if more && retired < budget {
        settled := false;
        return;
      }
      running := false;
      if reason == NoStop {
        reason := BudgetExpired;
      }
      lastReason := reason;
      lastRetired := retired % WORD32;
      if reason != InvariantViolation {
        context := context.(stopReason := reason);
      }
    }
  }

  /** Every quantum retires all it is given and asks for nothing. */
  function Steady(i: nat, c: Context, q: nat): Quantum {
    Quantum(true, if q == 0 then HostReturn else NoStop, c, q, false, false, Committed)
  }

  /** A steady backend uses up any budget, and what is reported is the remainder: at 2^32, nothing at all. */
  method SteadyRun(budget: nat) returns (retired: nat, reported: nat)
    ensures retired == budget && reported == budget % WORD32
    ensures reported == retired <==> budget < WORD32
  {
    var machine := new I386Machine(0, Context(0, NoStop, true));
    var reason, settled;
    reason, retired, settled := machine.Run(budget, Steady, budget);
    reported := machine.lastRetired;
  }
}

/** Why an engine, or a loop around one, came back. */
module StopReasons {
  datatype StopReason =
    | NoStop | Syscall | ArchTransition | HostReturn | MemoryFault
    | WindowsException | AsyncRequest | Unsupported | BudgetExpired | InvariantViolation
}

/** The unified error record of lib/safety, reduced to the fields that control flow reads. */
module SystemErrors {
  datatype Category = Success | Safety | System | Module

  datatype Severity = NoSeverity | Low | Warning | Medium | High | Critical

  datatype Code =
    | Ok
    | BufEmpty
    | IndexOob
    | DataCorrupt
    | InvalidSize
    | CriticalNull
    | NotInit
    | AlreadyInit
    | InvalidParam
    | ConfigError
    | ServiceNotFound
    | RegistrationFailed
    | OutOfMemory

  datatype SystemError = SystemError(code: Code, category: Category, severity: Severity)

  /** What a system call with an output parameter answers; the value counts only if the call succeeded. */
  datatype Reply<T> = Reply(result: SystemError, value: T) {
    predicate Succeeded() { result.code.Ok? }
  }

  function Rank(s: Severity): nat {
    match s
    case NoSeverity => 0
    case Low => 1
    case Warning => 2
    case Medium => 3
    case High => 4
    case Critical => 5
  }

  /** system_error_is_critical; the two range checks on the enumerations hold by typing. */
  predicate IsCritical(e: SystemError) {
    Rank(e.severity) >= Rank(High) || (e.category.Safety? && Rank(e.severity) >= Rank(Medium))
  }
}

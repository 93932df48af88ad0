/**
 * The faults an external step can suffer. A step either takes effect or not,
 * and independently it reports success, an error, a missed deadline (the
 * caller's future is dropped) or nothing at all because the process died.
 */
module Faults {

  datatype Fault =
    | Calm
    | FailBefore
    | FailAfter
    | TimeoutBefore
    | TimeoutAfter
    | CrashBefore
    | CrashAfter

  datatype Outcome = Ok | Err | TimedOut | Crashed
  {
    predicate IsFailure() { !Ok? }

    function PropagateFailure(): Outcome
      requires IsFailure()
    {
      this
    }

    /** The code after the step does not run at all. */
    predicate Cut() { TimedOut? || Crashed? }
  }

  predicate Happens(fault: Fault) {
    fault.Calm? || fault.FailAfter? || fault.TimeoutAfter? || fault.CrashAfter?
  }

  function Report(fault: Fault): Outcome {
    match fault
    case Calm => Ok
    case FailBefore | FailAfter => Err
    case TimeoutBefore | TimeoutAfter => TimedOut
    case CrashBefore | CrashAfter => Crashed
  }

  /** A step that cannot take effect fails, unless the caller is cut anyway. */
  function TryReport(fault: Fault, possible: bool): Outcome {
    if !possible && !Report(fault).Cut() then Err else Report(fault)
  }

  /** A probe whose error is read as an answer. */
  function ProbeReport(fault: Fault): Outcome {
    if Report(fault).Cut() then Report(fault) else Ok
  }

  /** That answer is "no", unless probes are assumed truthful. */
  predicate ProbeAnswer(fault: Fault, truthful: bool, present: bool) {
    present && (truthful || fault.Calm?)
  }

  /** Nothing goes wrong but at one step. */
  function OnlyAt(step: nat, fault: Fault): nat -> Fault {
    t => if t == step then fault else Calm
  }

  /** Step `t` reports an error. */
  predicate Erring(weather: nat -> Fault, t: nat) {
    Report(weather(t)).Err?
  }

  /** None of the steps from `from` up to `to` fails, but perhaps for the one at `probe`. */
  ghost predicate Flawless(weather: nat -> Fault, from: nat, to: nat, probe: nat) {
    forall t :: from <= t < to && t != probe ==> weather(t) == Calm
  }

  /** A block of `steps` steps, begun at `from`, stopped before `clock` with the report of its first failing step. */
  ghost predicate StopsAtFirstFault(weather: nat -> Fault, clock: nat, from: nat, steps: nat, r: Outcome) {
    && from < clock <= from + steps
    && (forall t :: from <= t < clock - 1 ==> weather(t) == Calm)
    && r == Report(weather(clock - 1))
    && (r.Ok? ==> clock == from + steps)
  }
}

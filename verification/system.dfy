/**
 The records of a system description: the entity store (periodic tasks), the
 dependency store, the core store, the device store and the network-delay store.
 All times are integers (nanoseconds in every generated system).
 */
module SystemModel {
  import opened Wrappers

  /**
   A periodic task. `core` and `device` are the optional pins: a heuristic writes
   its choice into `core` as a label such as "c2".
   */
  datatype Task = Task(
    name: string,
    period: int,
    duration: int,
    wcet: int,
    activationOffset: int,
    initialOffset: int,
    core: Option<string>,
    device: Option<string>)

  /** An edge of the dependency store, by task name at both ends. */
  datatype Dependency = Dependency(sourceTask: string, destinationTask: string)

  /** The pseudo-task standing for the system boundary. */
  const SystemBoundary: string := "__system"

  datatype Core = Core(name: string, device: string)

  /** One protocol entry of a device; only the worst case is used. */
  datatype ProtocolDelay = ProtocolDelay(protocol: string, wcdt: int)

  datatype Device = Device(name: string, delays: seq<ProtocolDelay>)

  /** A directed device-to-device link of the network-delay store. */
  datatype NetworkLink = NetworkLink(source: string, dest: string, wcdt: int)

  /** The protocol whose delay is charged at both ends of a transmission. */
  const Tcp: string := "tcp"

  /** Every period can be divided by: Python raises `ZeroDivisionError` otherwise. */
  predicate PeriodsNonZero(tasks: seq<Task>) {
    forall i :: 0 <= i < |tasks| ==> tasks[i].period != 0
  }

  /**
   The shape every generated task has (wcet <= duration <= period, offsets not
   negative), with the LET window fitting inside the period.
   */
  predicate WellFormedTask(t: Task) {
    && t.period > 0
    && 0 <= t.wcet <= t.duration
    && t.activationOffset >= 0
    && t.activationOffset + t.duration <= t.period
    && t.initialOffset >= 0
  }

  /** A whole task set of well-formed tasks. */
  predicate WellFormedTasks(tasks: seq<Task>) {
    && PeriodsNonZero(tasks)
    && forall i :: 0 <= i < |tasks| ==> WellFormedTask(tasks[i])
  }
}

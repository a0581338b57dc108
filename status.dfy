/**
 * The closed set of container states that the `container_status` state-enum
 * metric declares, in its declared order, and the conversion from the status
 * string the container runtime reports.
 */
module ContainerStatus {
  import opened Wrappers

  datatype Status = Restarting | Running | Paused | Exited

  /** The states list given when the enum metric is created, in that order. */
  const DeclaredStates: seq<string> := ["restarting", "running", "paused", "exited"]

  /**
   * The state a freshly created label child of the enum holds before any
   * `state(...)` call: the first declared state.
   */
  const InitialStatus: Status := Restarting

  /** The name under which a state is exposed. */
  function StatusName(st: Status): (s: string)
    ensures s in DeclaredStates
  {
    match st
    case Restarting => "restarting"
    case Running => "running"
    case Paused => "paused"
    case Exited => "exited"
  }

  /**
   * Setting the enum to `s` succeeds exactly when `s` is one of the declared
   * state names; any other string is rejected (the metric library raises).
   */
  function ParseStatus(s: string): (r: Option<Status>)
    ensures r.Some? <==> s in DeclaredStates
    ensures r.Some? ==> StatusName(r.value) == s
  {
    if s == "restarting" then Some(Restarting)
    else if s == "running" then Some(Running)
    else if s == "paused" then Some(Paused)
    else if s == "exited" then Some(Exited)
    else None
  }

  /** Every state name is accepted back as the state it names. */
  lemma ParseStatusName(st: Status)
    ensures ParseStatus(StatusName(st)) == Some(st)
  {
  }

  /** The initial state of a new child is the first entry of the declared list. */
  lemma InitialStatusIsFirstDeclared()
    ensures StatusName(InitialStatus) == DeclaredStates[0]
  {
  }
}

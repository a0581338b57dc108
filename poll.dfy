/**
 * One poll of the bridge: walk the runtime's container list and, for each
 * container, overwrite its restart count, its OOM value and its status under
 * its label set. The poll is specified by functions over a value view of the
 * three metrics (`Tables`); `UpdateMetrics` is the imperative loop.
 */
module Poll {
  import opened Wrappers
  import opened ContainerStatus
  import opened Classify
  import opened Registry

  /** The current samples of the three container metrics. */
  datatype Tables = Tables(
    restartCount: map<LabelSet, int>,
    oomKilled: map<LabelSet, int>,
    status: map<LabelSet, Status>)

  /** Whether the state-enum accepts a container's status. */
  predicate Known(c: Container)
  {
    ParseStatus(c.status).Some?
  }

  /**
   * The writes one loop iteration makes for `c`: both gauges are overwritten;
   * the enum child is created in its initial state if missing, and then set
   * to the container's status when that status is a declared one.
   */
  function WriteContainer(t: Tables, c: Container): (r: Tables)
    ensures r.restartCount == t.restartCount[LabelsOf(c) := c.restartCount]
    ensures r.oomKilled == t.oomKilled[LabelsOf(c) := OomValue(c)]
    ensures LabelsOf(c) in r.status
    ensures Known(c) ==> r.status == t.status[LabelsOf(c) := ParseStatus(c.status).value]
    ensures !Known(c) && LabelsOf(c) in t.status ==> r.status == t.status
    ensures !Known(c) && LabelsOf(c) !in t.status ==> r.status == t.status[LabelsOf(c) := InitialStatus]
  {
    var key := LabelsOf(c);
    var created := if key in t.status then t.status else t.status[key := InitialStatus];
    var parsed := ParseStatus(c.status);
    Tables(
      t.restartCount[key := c.restartCount],
      t.oomKilled[key := OomValue(c)],
      if parsed.Some? then created[key := parsed.value] else created)
  }

  /** The tables after writing every container of `cs`, in list order. */
  function ApplyAll(t: Tables, cs: seq<Container>): Tables
  {
    if cs == [] then t else WriteContainer(ApplyAll(t, cs[..|cs| - 1]), cs[|cs| - 1])
  }

  /** Writing one more container of the list writes it over the earlier ones. */
  lemma ApplyAllStep(t: Tables, cs: seq<Container>, i: nat)
    requires i < |cs|
    ensures ApplyAll(t, cs[..i + 1]) == WriteContainer(ApplyAll(t, cs[..i]), cs[i])
  {
    assert cs[..i + 1][..i] == cs[..i];
  }

  /** The position of the first container whose status is rejected, or `|cs|`. */
  function FirstUnknown(cs: seq<Container>): (k: nat)
    ensures k <= |cs|
    ensures forall j :: 0 <= j < k ==> Known(cs[j])
    ensures k < |cs| ==> !Known(cs[k])
  {
    if cs == [] then 0
    else if !Known(cs[0]) then 0
    else 1 + FirstUnknown(cs[1..])
  }

  /**
   * How a poll ends: it processes every container, or the rejected status of
   * the container at `index` raises out of the poll.
   */
  datatype PollOutcome = Completed | Aborted(index: nat, status: string)

  function PollOutcomeOf(cs: seq<Container>): (o: PollOutcome)
    ensures o.Completed? <==> forall j :: 0 <= j < |cs| ==> Known(cs[j])
    ensures o.Aborted? ==> o.index < |cs| && o.status == cs[o.index].status && !Known(cs[o.index])
    ensures o.Aborted? ==> forall j :: 0 <= j < o.index ==> Known(cs[j])
  {
    var k := FirstUnknown(cs);
    if k == |cs| then Completed else Aborted(k, cs[k].status)
  }

  /**
   * How many containers a poll writes: all of them, or up to and including
   * the one whose status is rejected (its gauges and its enum child are
   * written before the rejection).
   */
  function WrittenCount(cs: seq<Container>): (n: nat)
    ensures n <= |cs|
    ensures PollOutcomeOf(cs).Completed? ==> n == |cs|
    ensures PollOutcomeOf(cs).Aborted? ==> n == PollOutcomeOf(cs).index + 1
  {
    var k := FirstUnknown(cs);
    if k == |cs| then k else k + 1
  }

  /** The tables after one poll over the snapshot `cs`. */
  function PollTables(t: Tables, cs: seq<Container>): Tables
  {
    ApplyAll(t, cs[..WrittenCount(cs)])
  }

  /** The value view of the three metric objects. */
  function Snapshot(restarts: Gauge, ooms: Gauge, statuses: StateEnum): Tables
    reads restarts, ooms, statuses
  {
    Tables(restarts.samples, ooms.samples, statuses.samples)
  }

  /**
   * One iteration of the poll: set both gauges under the container's label
   * set, select its enum child and try to set the status; `ok` is false when
   * the status is rejected (the raise).
   */
  method WriteOne(restarts: Gauge, ooms: Gauge, statuses: StateEnum, c: Container) returns (ok: bool)
    requires restarts != ooms
    modifies restarts, ooms, statuses
    ensures ok <==> Known(c)
    ensures Snapshot(restarts, ooms, statuses) == WriteContainer(old(Snapshot(restarts, ooms, statuses)), c)
  {
    var oomKilled := OomValue(c);
    var key := LabelsOf(c);
    restarts.Set(key, c.restartCount);
    ooms.Set(key, oomKilled);
    statuses.Labels(key);
    ok := statuses.State(key, c.status);
  }

  /** One poll over the container list `containers`. */
  method UpdateMetrics(restarts: Gauge, ooms: Gauge, statuses: StateEnum, containers: seq<Container>)
    returns (outcome: PollOutcome)
    requires restarts != ooms
    modifies restarts, ooms, statuses
    ensures outcome == PollOutcomeOf(containers)
    ensures Snapshot(restarts, ooms, statuses)
         == PollTables(old(Snapshot(restarts, ooms, statuses)), containers)
  {
    ghost var t0 := Snapshot(restarts, ooms, statuses);
    var i := 0;
    while i < |containers|
      invariant i <= FirstUnknown(containers)
      invariant Snapshot(restarts, ooms, statuses) == ApplyAll(t0, containers[..i])
    {
      var c := containers[i];
      var ok := WriteOne(restarts, ooms, statuses, c);
      ApplyAllStep(t0, containers, i);
      if !ok {
        outcome := Aborted(i, c.status);
        return;
      }
      i := i + 1;
    }
    assert containers[..i] == containers;
    outcome := Completed;
  }
}

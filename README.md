# cmf-docker-metrics: one poll of the Docker-to-Prometheus bridge, in Dafny

The bridge asks the Docker daemon for its container list and republishes, per
container, three Prometheus metrics labelled `(name, compose_project,
compose_service)`:

- `container_restart_count`, a gauge holding the container's `RestartCount`;
- `container_oom_killed`, a gauge holding 1 when `State.OOMKilled` is set, else 0;
- `container_status`, a state-enum over the closed set `restarting`, `running`,
  `paused`, `exited`.

`compose_project` and `compose_service` come from the container labels
`com.docker.compose.project` and `com.docker.compose.service` and are the empty
string when a label is missing. A poll walks the list in order and overwrites
the entries for each container's label set. After a poll the bridge sleeps and
polls again by calling the poll function from inside itself.

The model is split into these modules:

- `ContainerStatus` (`status.dfy`): the declared states and the acceptance
  test the enum applies to a status string.
- `Classify` (`classify.dfy`): the container record a poll reads, the label set
  it derives, and the OOM value.
- `Registry` (`registry.dfy`): a labelled gauge and a labelled state-enum as
  classes whose `samples` map the methods update in place. `StateEnum.Labels`
  creates a missing child in the first declared state (`restarting`), as the
  metric library does. `StateEnum.State` rejects a string outside the declared
  set. In the library that rejection is a `ValueError`.
- `Poll` (`poll.dfy`): one poll. `UpdateMetrics` is the loop over the container
  list that writes into the three metric objects. Its postcondition ties the
  new samples to `PollTables`, a function of the old samples and the list.
  An unaccepted status ends the poll with `Aborted`. Everything written before
  that point stays written: the container's two gauges and, if it was missing,
  its enum child in the initial state. No later container is written.
- `PollProperties` (`properties.dfy`): what a poll does to each label set. It
  covers last-write-wins, written values equal to their source fields, the
  untouched label sets, identical label sets across the three metrics, a 0/1
  OOM gauge, and idempotence.
- `Scheduling` (`scheduling.dfy`): re-scheduling a poll, whatever one poll
  does. `Looped` polls once per snapshot and stops at the first poll that
  raises. `Recursed` does the same with a bounded stack.
- `PollLoop` (`poll_loop.dfy`): successive polls over a finite list of
  snapshots, instantiating `Scheduling` with one poll. `RunPolls` is the
  loop the re-scheduling is meant to be. `RecursivePolls` is the recursion
  as written (see Findings).

Two facts about the code shape the model:

- The code has no swarm or service replica metrics, so none are modelled.
- An unknown status raises out of the poll and ends the polling thread; the
  model does the same.

## Model

| member | source | states |
|---|---|---|
| `ContainerStatus.StatusName` | cmf_docker_metrics/main.py:22 | every state's exposed name is one of the four declared names |
| `ContainerStatus.ParseStatus` | cmf_docker_metrics/main.py:22 | a status string is accepted exactly when it is one of the declared states, and the accepted state is the one with that name |
| `ContainerStatus.ParseStatusName` | cmf_docker_metrics/main.py:22 | each state's name is accepted back as that same state (round trip) |
| `ContainerStatus.InitialStatusIsFirstDeclared` | cmf_docker_metrics/main.py:22 | a new enum child starts in the first declared state, `restarting` |
| `Classify.LabelsOf` | cmf_docker_metrics/main.py:31-34 | the label set is the container's name, then the compose project label or `""` when it is absent, then the compose service label or `""` when it is absent |
| `Classify.UncomposedContainerLabels` | cmf_docker_metrics/main.py:33-34 | a container without compose labels is labelled `(name, "", "")`, and that is not an error |
| `Classify.LabelsIgnoreOtherFields` | cmf_docker_metrics/main.py:31-47 | two containers that agree on name and on both compose labels get the same label set, whatever their other labels, status, restart count or OOM flag |
| `Classify.OomValue` | cmf_docker_metrics/main.py:29 | the OOM value is 0 or 1, and it is 1 exactly when the OOM flag is set |
| `Registry.Gauge.constructor` | cmf_docker_metrics/main.py:20-21 | a new gauge has no samples |
| `Registry.Gauge.Set` | cmf_docker_metrics/main.py:31-35 | setting overwrites the value under the given label set and changes no other label set |
| `Registry.StateEnum.constructor` | cmf_docker_metrics/main.py:22 | a new state-enum has no samples |
| `Registry.StateEnum.Labels` | cmf_docker_metrics/main.py:43-46 | selecting a label set creates its child in the initial state when missing and otherwise changes nothing |
| `Registry.StateEnum.State` | cmf_docker_metrics/main.py:47 | setting a state succeeds exactly for a declared state and then makes it the active one; a rejected state changes nothing |
| `Poll.WriteContainer` | cmf_docker_metrics/main.py:29-47 | one iteration overwrites both gauges under the container's label set with its restart count and OOM value. The enum entry there holds the container's status when accepted; otherwise it holds the earlier state or the initial one. Other label sets keep their entries |
| `Poll.ApplyAll` | cmf_docker_metrics/main.py:28-47 | definition: the `for` loop as a fold. The containers are written in list order, each over the tables the earlier ones left |
| `Poll.ApplyAllStep` | cmf_docker_metrics/main.py:28-47 | writing one more container of the list writes it over what the earlier containers left |
| `Poll.FirstUnknown` | cmf_docker_metrics/main.py:28-47 | it finds the first container whose status the enum rejects; every container before it is accepted |
| `Poll.PollOutcomeOf` | cmf_docker_metrics/main.py:28-47 | a poll completes exactly when every status is accepted; otherwise it aborts at the first rejected container and reports its status |
| `Poll.WrittenCount` | cmf_docker_metrics/main.py:28-47 | a completed poll writes every container; an aborted poll writes up to and including the rejected one |
| `Poll.PollTables` | cmf_docker_metrics/main.py:26-47 | definition: one poll writes the containers up to the first rejected status, that one included, and none after it |
| `Poll.WriteOne` | cmf_docker_metrics/main.py:29-47 | one iteration leaves the three metric objects as `WriteContainer` says, and it succeeds exactly when the status is accepted |
| `Poll.UpdateMetrics` | cmf_docker_metrics/main.py:25-47 | the loop leaves the three metric objects exactly as the poll specification says, and it reports the poll's outcome |
| `PollProperties.LastWriter` | cmf_docker_metrics/main.py:28-47 | it finds the last container in list order written under a label set; no later container uses that label set |
| `PollProperties.LastKnownWriter` | cmf_docker_metrics/main.py:43-47 | it finds the last container under a label set whose status is accepted; every later one under it is rejected |
| `PollProperties.GaugeEntries` | cmf_docker_metrics/main.py:28-41 | each gauge entry holds the last writer's restart count and OOM value. A label set with no writer keeps its earlier entry, or its absence |
| `PollProperties.StatusEntry` | cmf_docker_metrics/main.py:43-47 | each enum entry holds the last accepted writer's status. With no accepted writer, it keeps the earlier state, or the initial state when a rejected writer created the entry. A label set with no writer is unchanged |
| `PollProperties.WrittenValuesEqualSource` | cmf_docker_metrics/main.py:31-47 | when container names are distinct, each container's restart count, OOM value and accepted status are what the metrics hold under its label set |
| `PollProperties.LastWriteWins` | cmf_docker_metrics/main.py:28-47 | the last container under a label set has its restart count, OOM value and accepted status held there, whatever the earlier containers under it wrote |
| `PollProperties.UntouchedOutsideSnapshot` | cmf_docker_metrics/main.py:26-47 | a label set no container of the list uses keeps its entries, or their absence, in all three metrics, so stale series persist |
| `PollProperties.KeyWritten` | cmf_docker_metrics/main.py:31-47 | a label set is present in each of the three metrics after a poll exactly when it was present before or some container uses it |
| `PollProperties.SameLabelSets` | cmf_docker_metrics/main.py:31-47 | all three metrics gain exactly the same label sets: those of the containers written |
| `PollProperties.OomStaysBinary` | cmf_docker_metrics/main.py:29-41 | if every OOM gauge value is 0 or 1 before the writes, it still is afterwards |
| `PollProperties.ApplyAllIdempotent` | cmf_docker_metrics/main.py:28-47 | writing the same container list twice gives the same metrics as writing it once; nothing accumulates |
| `PollProperties.PollIdempotent` | cmf_docker_metrics/main.py:28-47 | polling the same snapshot again leaves the metrics unchanged |
| `PollProperties.AbortedPollSkipsRest` | cmf_docker_metrics/main.py:43-47 | in an aborted poll, a label set used only by containers after the rejected one is untouched |
| `PollProperties.CompletedPollWritesAll` | cmf_docker_metrics/main.py:28-47 | a completed poll writes the whole list |
| `PollLoop.RunSpec` | cmf_docker_metrics/main.py:47-52 | definition: successive polls over the snapshots, the first poll first. A poll that raises ends the thread, so no later snapshot is read |
| `PollLoop.RunPolls` | cmf_docker_metrics/main.py:49-52 | the polling loop leaves the metrics as successive polls over the snapshots do, stopping after the first aborted poll |
| `PollLoop.RepeatedPollsStable` | cmf_docker_metrics/main.py:49-50 | polling an unchanged snapshot any number of times (at least once) gives the metrics of the first poll |
| `PollLoop.FrozenAfterAbort` | cmf_docker_metrics/main.py:47-50 | after an aborted poll the metrics freeze; later snapshots have no effect |
| `PollLoop.LastPollOnTop` | cmf_docker_metrics/main.py:49-50 | while polls complete, the last poll writes its snapshot over the metrics the earlier polls left |
| `PollLoop.LatestSnapshotShown` | cmf_docker_metrics/main.py:49-50 | while polls complete, the metrics show every container of the latest snapshot |
| `Scheduling.LoopedStopsAt` | cmf_docker_metrics/main.py:47-50 | for any poll function, a poll that raises ends the polling, so the snapshots after it have no effect |
| `Scheduling.RecursedCaps` | cmf_docker_metrics/main.py:49-50 | for any poll function, a self-recursive re-scheduling with stack room for `room` polls equals the loop over the first `room` snapshots |
| `Scheduling.RecursedWithRoom` | cmf_docker_metrics/main.py:49-50 | for any poll function, with stack room for every snapshot the recursion equals the loop |
| `PollLoop.RecursivePolls` | cmf_docker_metrics/main.py:49-50 | definition: the re-scheduling as written. Each poll calls the next from inside itself, and a call with no stack room left raises before it polls |
| `PollLoop.RecursionCapsPolls` | cmf_docker_metrics/main.py:49-50 | the self-recursive re-scheduling with stack room for `room` polls reflects only the first `room` snapshots |
| `PollLoop.RecursionWithRoomPollsAll` | cmf_docker_metrics/main.py:49-50 | with stack room for every snapshot, the recursion polls as the loop does |
| `PollLoop.RecursionFreezesRestartCount` | cmf_docker_metrics/main.py:49-50 | a concrete pair of healthy snapshots where the recursion shows a restart count of 0 and the loop shows 1 |

## Findings

| source | as written | input that shows it | evidently intended | confidence | as-written member | corrected member |
|---|---|---|---|---|---|---|
| cmf_docker_metrics/main.py:49-50 | each poll ends by calling `update_metrics()` from inside itself. Python does not eliminate tail calls, so every poll adds a stack frame. The interpreter's recursion limit (1000 frames by default) then raises `RecursionError`, which ends the polling thread. | a healthy daemon polled for about 1000 consecutive polls (roughly 83 minutes at 5 seconds each). In the model, a container whose restart count goes from 0 to 1 between two healthy polls, with stack room for one poll. | polling continues indefinitely and every later snapshot is reflected | not executed; the exact poll count depends on the interpreter's recursion limit and on the frames beneath the thread | `PollLoop.RecursionFreezesRestartCount` | `PollLoop.LatestSnapshotShown` |

`PollLoop.RecursivePolls` models the recursion as written. `PollLoop.RecursionCapsPolls`
proves that it reflects at most `room` snapshots. `PollLoop.RunPolls` and `PollLoop.RunSpec`
are the loop the rest of the model uses.

## Left out

- HTTP exposition (main.py:11-17, 57): the Flask app, the WSGI dispatcher and the `waitress` server are I/O and library code.
- Prometheus text format: the enum's exposition as one 0/1 series per state, and the rest of the metric library's internals beyond last-set value per label set and one active state per label set.
- Docker client and socket (main.py:12, 26): `cli.containers.list()` is an input list of records. Its default lists only running containers, and the model accepts any list.
- A failed `list()` call, or a missing `attrs` key (a `KeyError`), raises out of the poll and ends the thread like a rejected status. Neither is modelled: the model assumes the keys are present and the call succeeds.
- Polling thread (main.py:55-56): the concurrency between polling and scraping is not modelled.
- `time.sleep(5)` (main.py:49): wall-clock timing is not modelled. Polls are a finite list of snapshots, one per poll.
- `Registry.Gauge.Set`: gauges store floats. The model stores the integer set, which is exact for the restart counts and 0/1 values written here.
- The gauge child that `labels(...)` creates at 0 just before `set(...)` is not modelled. Only a scrape running concurrently between the two calls could observe it, and concurrency is left out.
- The `OOMKilled` field is a boolean in the daemon's response, so "truthy" is modelled as `true`.
- Swarm/service replica metrics: they do not appear in the code, so they are not modelled.

/**
 * The succession of polls: after each poll the bridge sleeps and polls
 * again, for as long as no poll raises. The succession is modelled over a
 * finite list of runtime snapshots, one per poll; the sleep is left out.
 */
module PollLoop {
  import opened ContainerStatus
  import opened Classify
  import opened Registry
  import opened Poll
  import opened PollProperties
  import opened Scheduling

  /**
   * Successive polls over the snapshots `snaps`, the first poll first. A
   * poll that aborts ends the polling: the later snapshots are never read.
   */
  function RunSpec(t: Tables, snaps: seq<seq<Container>>): Tables
  {
    Looped(PollTables, Raises, t, snaps)
  }

  /** Whether a poll over the snapshot `cs` raises out of the poll function. */
  predicate Raises(cs: seq<Container>)
  {
    PollOutcomeOf(cs).Aborted?
  }

  /**
   * The polling thread as a loop: poll, then poll again, over the given
   * snapshots; an exception out of a poll ends the thread.
   */
  method RunPolls(restarts: Gauge, ooms: Gauge, statuses: StateEnum, snaps: seq<seq<Container>>)
    requires restarts != ooms
    modifies restarts, ooms, statuses
    ensures Snapshot(restarts, ooms, statuses) == RunSpec(old(Snapshot(restarts, ooms, statuses)), snaps)
  {
    ghost var goal := RunSpec(Snapshot(restarts, ooms, statuses), snaps);
    var i := 0;
    while i < |snaps|
      invariant i <= |snaps|
      invariant RunSpec(Snapshot(restarts, ooms, statuses), snaps[i..]) == goal
    {
      assert snaps[i..][0] == snaps[i] && snaps[i..][1..] == snaps[i + 1..];
      var outcome := UpdateMetrics(restarts, ooms, statuses, snaps[i]);
      if outcome.Aborted? {
        return;
      }
      i := i + 1;
    }
  }

  /** `n` polls in a row over an unchanged runtime snapshot. */
  function Repeat(cs: seq<Container>, n: nat): (snaps: seq<seq<Container>>)
    ensures |snaps| == n
    ensures forall i :: 0 <= i < n ==> snaps[i] == cs
  {
    seq(n, _ => cs)
  }

  /**
   * Polling an unchanged runtime snapshot any number of times (at least
   * once) leaves the metrics as the first poll left them.
   */
  lemma {:induction false} RepeatedPollsStable(t: Tables, cs: seq<Container>, n: nat)
    requires n >= 1
    decreases n
    ensures RunSpec(t, Repeat(cs, n)) == PollTables(t, cs)
  {
    var snaps := Repeat(cs, n);
    assert snaps[0] == cs;
    if PollOutcomeOf(cs).Completed? {
      RunSpecCompletedStep(t, snaps);
      if n == 1 {
        assert snaps[1..] == [];
      } else {
        assert snaps[1..] == Repeat(cs, n - 1);
        RepeatedPollsStable(PollTables(t, cs), cs, n - 1);
        PollIdempotent(t, cs);
      }
    }
  }

  /**
   * A poll that aborts ends the polling: whatever the snapshots after it
   * hold, the metrics are those left by the polls up to it (they freeze).
   */
  lemma FrozenAfterAbort(t: Tables, snaps: seq<seq<Container>>, i: nat)
    requires i < |snaps|
    requires PollOutcomeOf(snaps[i]).Aborted?
    ensures RunSpec(t, snaps) == RunSpec(t, snaps[..i + 1])
  {
    LoopedStopsAt(PollTables, Raises, t, snaps, i);
  }

  /**
   * When every poll completes, the metrics after the last poll are the
   * metrics before it with the last snapshot written over them.
   */
  lemma {:induction false} LastPollOnTop(t: Tables, snaps: seq<seq<Container>>)
    requires |snaps| > 0
    requires forall i :: 0 <= i < |snaps| ==> PollOutcomeOf(snaps[i]).Completed?
    decreases |snaps|
    ensures RunSpec(t, snaps) == ApplyAll(RunSpec(t, snaps[..|snaps| - 1]), snaps[|snaps| - 1])
  {
    CompletedPollWritesAll(t, snaps[0]);
    RunSpecCompletedStep(t, snaps);
    if |snaps| > 1 {
      var rest := snaps[1..];
      RunSpecCompletedStep(t, snaps[..|snaps| - 1]);
      LastPollOnTop(PollTables(t, snaps[0]), rest);
      assert rest[..|rest| - 1] == snaps[..|snaps| - 1][1..];
    }
  }

  /**
   * As long as polls complete, the metrics show every container of the
   * latest snapshot (its container names being distinct).
   */
  lemma LatestSnapshotShown(t: Tables, snaps: seq<seq<Container>>)
    requires |snaps| > 0
    requires forall i :: 0 <= i < |snaps| ==> PollOutcomeOf(snaps[i]).Completed?
    requires var last := snaps[|snaps| - 1];
      forall i, j :: 0 <= i < j < |last| ==> last[i].name != last[j].name
    ensures var last := snaps[|snaps| - 1];
      forall i :: 0 <= i < |last| ==> Shows(RunSpec(t, snaps), last[i])
  {
    LastPollOnTop(t, snaps);
    WrittenValuesEqualSource(RunSpec(t, snaps[..|snaps| - 1]), snaps[|snaps| - 1]);
  }

  /**
   * The re-scheduling as written: each poll ends by calling the poll
   * function again from inside itself, so every poll adds a frame to the
   * interpreter's call stack, and the call that finds no `room` left raises
   * before it polls, which ends the thread like any other exception.
   */
  function RecursivePolls(t: Tables, snaps: seq<seq<Container>>, room: nat): Tables
  {
    Recursed(PollTables, Raises, t, snaps, room)
  }

  /**
   * The recursion polls at most `room` times: snapshots past that point are
   * never reflected, however healthy the runtime is.
   */
  lemma RecursionCapsPolls(t: Tables, snaps: seq<seq<Container>>, room: nat)
    requires room <= |snaps|
    ensures RecursivePolls(t, snaps, room) == RunSpec(t, snaps[..room])
  {
    RecursedCaps(PollTables, Raises, t, snaps, room);
  }

  /** With room for every snapshot, the recursion polls as the loop does. */
  lemma RecursionWithRoomPollsAll(t: Tables, snaps: seq<seq<Container>>, room: nat)
    requires |snaps| <= room
    ensures RecursivePolls(t, snaps, room) == RunSpec(t, snaps)
  {
    RecursedWithRoom(PollTables, Raises, t, snaps, room);
  }

  /** After a poll that completes, the polling goes on with the next snapshot. */
  lemma RunSpecCompletedStep(t: Tables, snaps: seq<seq<Container>>)
    requires |snaps| > 0 && PollOutcomeOf(snaps[0]).Completed?
    ensures RunSpec(t, snaps) == RunSpec(PollTables(t, snaps[0]), snaps[1..])
  {
  }

  /**
   * A container whose restart count goes from 0 to 1 between two healthy
   * polls: with stack room for one poll only, the recursive scheduler still
   * shows 0, while the loop shows 1.
   */
  lemma RecursionFreezesRestartCount()
    ensures var c0 := Container("web", map[], "running", 0, false);
      var snaps := [[c0], [c0.(restartCount := 1)]];
      var empty := Tables(map[], map[], map[]);
      var key := LabelSet("web", "", "");
      && key in RecursivePolls(empty, snaps, 1).restartCount
      && RecursivePolls(empty, snaps, 1).restartCount[key] == 0
      && key in RunSpec(empty, snaps).restartCount
      && RunSpec(empty, snaps).restartCount[key] == 1
  {
    var c0 := Container("web", map[], "running", 0, false);
    var c1 := c0.(restartCount := 1);
    var snaps := [[c0], [c1]];
    var empty := Tables(map[], map[], map[]);
    var key := LabelSet("web", "", "");
    assert LabelsOf(c0) == key && LabelsOf(c1) == key;
    assert Known(c0) && Known(c1);
    assert PollOutcomeOf([c0]).Completed? && PollOutcomeOf([c1]).Completed?;
    assert [c0][..1] == [c0] && [c1][..1] == [c1];
    assert ApplyAll(empty, [c0]) == WriteContainer(ApplyAll(empty, []), c0);
    var after0 := PollTables(empty, [c0]);
    assert after0 == WriteContainer(empty, c0);
    assert ApplyAll(after0, [c1]) == WriteContainer(ApplyAll(after0, []), c1);
    var after1 := PollTables(after0, [c1]);
    assert after1 == WriteContainer(after0, c1);
    assert snaps[1..] == [[c1]] && [[c1]][1..] == [];
    assert RecursivePolls(empty, snaps, 1) == RecursivePolls(after0, [[c1]], 0) == after0;
    assert RunSpec(empty, snaps) == RunSpec(after0, [[c1]]) == RunSpec(after1, []) == after1;
  }
}

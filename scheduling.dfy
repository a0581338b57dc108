/**
 * Re-scheduling a poll, independently of what one poll does: the state `s`
 * goes through `poll` once per snapshot, in order, and polling ends after the
 * first snapshot on which the poll raises. `Looped` re-schedules from a loop;
 * `Recursed` re-schedules by a nested call that needs one more frame of
 * stack per poll and raises, before polling, when no `room` is left.
 */
module Scheduling {

  function Looped<S, X>(poll: (S, X) -> S, raises: X -> bool, s: S, snaps: seq<X>): S
    decreases |snaps|
  {
    if snaps == [] then s
    else if raises(snaps[0]) then poll(s, snaps[0])
    else Looped(poll, raises, poll(s, snaps[0]), snaps[1..])
  }

  function Recursed<S, X>(poll: (S, X) -> S, raises: X -> bool, s: S, snaps: seq<X>, room: nat): S
    decreases |snaps|
  {
    if snaps == [] || room == 0 then s
    else if raises(snaps[0]) then poll(s, snaps[0])
    else Recursed(poll, raises, poll(s, snaps[0]), snaps[1..], room - 1)
  }

  /**
   * A poll that raises ends the polling: whatever the snapshots after it
   * hold, the state is the one left by the polls up to it.
   */
  lemma {:induction false} LoopedStopsAt<S, X>(poll: (S, X) -> S, raises: X -> bool, s: S, snaps: seq<X>, i: nat)
    requires i < |snaps| && raises(snaps[i])
    decreases i
    ensures Looped(poll, raises, s, snaps) == Looped(poll, raises, s, snaps[..i + 1])
  {
    var prefix := snaps[..i + 1];
    assert prefix[0] == snaps[0];
    if i > 0 && !raises(snaps[0]) {
      assert prefix[1..] == snaps[1..][..i];
      LoopedStopsAt(poll, raises, poll(s, snaps[0]), snaps[1..], i - 1);
    }
  }

  /** The recursion polls at most `room` times. */
  lemma {:induction false} RecursedCaps<S, X>(poll: (S, X) -> S, raises: X -> bool, s: S, snaps: seq<X>, room: nat)
    requires room <= |snaps|
    decreases room
    ensures Recursed(poll, raises, s, snaps, room) == Looped(poll, raises, s, snaps[..room])
  {
    var prefix := snaps[..room];
    if room == 0 {
      assert prefix == [];
    } else {
      assert prefix[0] == snaps[0];
      if !raises(snaps[0]) {
        RecursedCaps(poll, raises, poll(s, snaps[0]), snaps[1..], room - 1);
        assert prefix[1..] == snaps[1..][..room - 1];
      }
    }
  }

  /** With room for every snapshot, the recursion polls as the loop does. */
  lemma {:induction false} RecursedWithRoom<S, X>(poll: (S, X) -> S, raises: X -> bool, s: S, snaps: seq<X>, room: nat)
    requires |snaps| <= room
    decreases |snaps|
    ensures Recursed(poll, raises, s, snaps, room) == Looped(poll, raises, s, snaps)
  {
    if snaps != [] && !raises(snaps[0]) {
      RecursedWithRoom(poll, raises, poll(s, snaps[0]), snaps[1..], room - 1);
    }
  }
}

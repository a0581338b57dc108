/**
 * The two kinds of labelled metric a poll writes to, reduced to what the poll
 * relies on: a gauge holds the last value set per label set, and a state-enum
 * holds one active state, from its closed set, per label set.
 */
module Registry {
  import opened ContainerStatus
  import opened Classify

  /** A labelled gauge: `labels(k).set(v)` makes `v` the current value under `k`. */
  class Gauge {
    var samples: map<LabelSet, int>

    constructor ()
      ensures samples == map[]
    {
      samples := map[];
    }

    /** Creates the child for `key` if needed and overwrites its value. */
    method Set(key: LabelSet, value: int)
      modifies this
      ensures samples == old(samples)[key := value]
    {
      samples := samples[key := value];
    }
  }

  /** A labelled state-enum over `DeclaredStates`. */
  class StateEnum {
    var samples: map<LabelSet, Status>

    constructor ()
      ensures samples == map[]
    {
      samples := map[];
    }

    /**
     * `labels(k)`: returns the child for `k`, creating it in the initial
     * state when it does not exist yet; an existing child is left as it is.
     */
    method Labels(key: LabelSet)
      modifies this
      ensures key in samples
      ensures key in old(samples) ==> samples == old(samples)
      ensures key !in old(samples) ==> samples == old(samples)[key := InitialStatus]
    {
      if key !in samples {
        samples := samples[key := InitialStatus];
      }
    }

    /**
     * `state(s)` on the child for `key`: succeeds, making `s` the active
     * state, exactly when `s` is a declared state; otherwise it is rejected
     * and nothing changes.
     */
    method State(key: LabelSet, s: string) returns (ok: bool)
      requires key in samples
      modifies this
      ensures ok <==> s in DeclaredStates
      ensures ok ==> samples == old(samples)[key := ParseStatus(s).value]
      ensures !ok ==> samples == old(samples)
    {
      var parsed := ParseStatus(s);
      ok := parsed.Some?;
      if ok {
        samples := samples[key := parsed.value];
      }
    }
  }
}

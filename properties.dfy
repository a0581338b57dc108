/**
 * What one poll, and a succession of polls, does to the three container
 * metrics: which value each label set ends up with, which label sets are left
 * alone, and why polling the same snapshot again changes nothing.
 */
module PollProperties {
  import opened ContainerStatus
  import opened Classify
  import opened Poll

  /** The label sets the containers of `cs` are written under. */
  ghost function KeysOf(cs: seq<Container>): set<LabelSet>
  {
    set i | 0 <= i < |cs| :: LabelsOf(cs[i])
  }

  /** `m1` and `m2` agree on `k`: both lack it, or both hold the same value. */
  ghost predicate SameEntry<V>(m1: map<LabelSet, V>, m2: map<LabelSet, V>, k: LabelSet)
  {
    (k in m1 <==> k in m2) && (k in m1 ==> m1[k] == m2[k])
  }

  /**
   * The metrics `r` show container `c`: under its label set they hold its
   * restart count, its OOM value and, when the enum accepts it, its status.
   */
  ghost predicate Shows(r: Tables, c: Container)
  {
    var k := LabelsOf(c);
    && k in r.restartCount && r.restartCount[k] == c.restartCount
    && k in r.oomKilled && r.oomKilled[k] == OomValue(c)
    && k in r.status
    && (Known(c) ==> r.status[k] == ParseStatus(c.status).value)
  }

  /** The position of the last container of `cs` written under `key`, or -1. */
  function LastWriter(cs: seq<Container>, key: LabelSet): (w: int)
    ensures -1 <= w < |cs|
    ensures w >= 0 ==> LabelsOf(cs[w]) == key
    ensures forall j :: w < j < |cs| ==> LabelsOf(cs[j]) != key
  {
    if cs == [] then -1
    else if LabelsOf(cs[|cs| - 1]) == key then |cs| - 1
    else LastWriter(cs[..|cs| - 1], key)
  }

  /**
   * The position of the last container of `cs` written under `key` whose
   * status the enum accepts, or -1.
   */
  function LastKnownWriter(cs: seq<Container>, key: LabelSet): (w: int)
    ensures -1 <= w < |cs|
    ensures w >= 0 ==> LabelsOf(cs[w]) == key && Known(cs[w])
    ensures forall j :: w < j < |cs| && LabelsOf(cs[j]) == key ==> !Known(cs[j])
  {
    if cs == [] then -1
    else if LabelsOf(cs[|cs| - 1]) == key && Known(cs[|cs| - 1]) then |cs| - 1
    else LastKnownWriter(cs[..|cs| - 1], key)
  }

  /**
   * Each gauge entry after writing `cs` is the value of the last container
   * written under that label set, or, when none was, the entry from before.
   */
  lemma {:induction false} GaugeEntries(t: Tables, cs: seq<Container>, key: LabelSet)
    ensures var w, r := LastWriter(cs, key), ApplyAll(t, cs);
      && (w >= 0 ==> key in r.restartCount && r.restartCount[key] == cs[w].restartCount)
      && (w >= 0 ==> key in r.oomKilled && r.oomKilled[key] == OomValue(cs[w]))
      && (w < 0 ==> SameEntry(r.restartCount, t.restartCount, key))
      && (w < 0 ==> SameEntry(r.oomKilled, t.oomKilled, key))
  {
    if cs != [] {
      var p := cs[..|cs| - 1];
      GaugeEntries(t, p, key);
      if LabelsOf(cs[|cs| - 1]) != key {
        var w := LastWriter(p, key);
        assert w >= 0 ==> cs[w] == p[w];
      }
    }
  }

  /**
   * The enum entry after writing `cs`: the status of the last accepted
   * container under that label set; failing one, the entry from before, or
   * the initial state when a rejected container created the entry; and the
   * entry from before when no container was written under it.
   */
  lemma {:induction false} StatusEntry(t: Tables, cs: seq<Container>, key: LabelSet)
    ensures var w, kw, r := LastWriter(cs, key), LastKnownWriter(cs, key), ApplyAll(t, cs);
      && (kw >= 0 ==> key in r.status && r.status[key] == ParseStatus(cs[kw].status).value)
      && (kw < 0 && w >= 0 && key in t.status ==> key in r.status && r.status[key] == t.status[key])
      && (kw < 0 && w >= 0 && key !in t.status ==> key in r.status && r.status[key] == InitialStatus)
      && (w < 0 ==> SameEntry(r.status, t.status, key))
  {
    if cs != [] {
      var p := cs[..|cs| - 1];
      StatusEntry(t, p, key);
      var kw := LastKnownWriter(p, key);
      assert kw >= 0 ==> cs[kw] == p[kw];
    }
  }

  /**
   * When the container names of a snapshot are distinct (the runtime's
   * container names are unique), every container's own values are what the
   * three metrics hold under its label set afterwards.
   */
  lemma {:induction false} WrittenValuesEqualSource(t: Tables, cs: seq<Container>)
    requires forall i, j :: 0 <= i < j < |cs| ==> cs[i].name != cs[j].name
    ensures forall i :: 0 <= i < |cs| ==> Shows(ApplyAll(t, cs), cs[i])
  {
    forall i | 0 <= i < |cs| ensures Shows(ApplyAll(t, cs), cs[i]) {
      var k := LabelsOf(cs[i]);
      GaugeEntries(t, cs, k);
      StatusEntry(t, cs, k);
      var w := LastWriter(cs, k);
      assert w == i by {
        assert i <= w;
        assert cs[w].name == cs[i].name;
      }
      if Known(cs[i]) {
        assert LastKnownWriter(cs, k) == i;
      }
    }
  }

  /**
   * Writes overwrite: when no container after `j` uses its label set, the
   * metrics hold the values of container `j`, whatever any earlier container
   * under that label set wrote.
   */
  lemma {:induction false} LastWriteWins(t: Tables, cs: seq<Container>, j: nat)
    requires j < |cs|
    requires forall l :: j < l < |cs| ==> LabelsOf(cs[l]) != LabelsOf(cs[j])
    ensures var k, r := LabelsOf(cs[j]), ApplyAll(t, cs);
      && k in r.restartCount && r.restartCount[k] == cs[j].restartCount
      && k in r.oomKilled && r.oomKilled[k] == OomValue(cs[j])
      && (Known(cs[j]) ==> k in r.status && r.status[k] == ParseStatus(cs[j].status).value)
  {
    var k := LabelsOf(cs[j]);
    GaugeEntries(t, cs, k);
    StatusEntry(t, cs, k);
    assert LastWriter(cs, k) == j;
    if Known(cs[j]) {
      assert LastKnownWriter(cs, k) == j;
    }
  }

  /**
   * Nothing else changes: a label set no container of the snapshot is
   * written under keeps its entries (or their absence) in all three metrics,
   * so series of vanished containers stay as they were.
   */
  lemma {:induction false} UntouchedOutsideSnapshot(t: Tables, cs: seq<Container>, key: LabelSet)
    requires forall i :: 0 <= i < |cs| ==> LabelsOf(cs[i]) != key
    ensures var r := ApplyAll(t, cs);
      && SameEntry(r.restartCount, t.restartCount, key)
      && SameEntry(r.oomKilled, t.oomKilled, key)
      && SameEntry(r.status, t.status, key)
  {
    GaugeEntries(t, cs, key);
    StatusEntry(t, cs, key);
  }

  /**
   * The three metrics gain exactly the same new label sets: those of the
   * containers written.
   */
  lemma {:induction false} SameLabelSets(t: Tables, cs: seq<Container>)
    ensures ApplyAll(t, cs).restartCount.Keys == t.restartCount.Keys + KeysOf(cs)
    ensures ApplyAll(t, cs).oomKilled.Keys == t.oomKilled.Keys + KeysOf(cs)
    ensures ApplyAll(t, cs).status.Keys == t.status.Keys + KeysOf(cs)
  {
    var r, keys := ApplyAll(t, cs), KeysOf(cs);
    forall k ensures k in r.restartCount.Keys <==> k in t.restartCount.Keys + keys {
      KeyWritten(t, cs, k);
    }
    forall k ensures k in r.oomKilled.Keys <==> k in t.oomKilled.Keys + keys {
      KeyWritten(t, cs, k);
    }
    forall k ensures k in r.status.Keys <==> k in t.status.Keys + keys {
      KeyWritten(t, cs, k);
    }
  }

  lemma {:induction false} KeyWritten(t: Tables, cs: seq<Container>, k: LabelSet)
    ensures var r := ApplyAll(t, cs);
      && (k in r.restartCount <==> k in t.restartCount || k in KeysOf(cs))
      && (k in r.oomKilled <==> k in t.oomKilled || k in KeysOf(cs))
      && (k in r.status <==> k in t.status || k in KeysOf(cs))
  {
    GaugeEntries(t, cs, k);
    StatusEntry(t, cs, k);
    if k in KeysOf(cs) {
      var i :| 0 <= i < |cs| && LabelsOf(cs[i]) == k;
      assert LastWriter(cs, k) >= i;
    }
  }

  /** Every value the OOM gauge holds is 0 or 1, and a poll keeps it so. */
  lemma {:induction false} OomStaysBinary(t: Tables, cs: seq<Container>)
    requires forall k :: k in t.oomKilled ==> t.oomKilled[k] == 0 || t.oomKilled[k] == 1
    ensures forall k :: k in ApplyAll(t, cs).oomKilled ==>
      ApplyAll(t, cs).oomKilled[k] == 0 || ApplyAll(t, cs).oomKilled[k] == 1
  {
    if cs != [] {
      OomStaysBinary(t, cs[..|cs| - 1]);
    }
  }

  lemma MapsEqual<V>(m1: map<LabelSet, V>, m2: map<LabelSet, V>)
    requires forall k :: SameEntry(m1, m2, k)
    ensures m1 == m2
  {
    assert m1.Keys == m2.Keys by {
      forall k | k in m1.Keys ensures k in m2.Keys { assert SameEntry(m1, m2, k); }
      forall k | k in m2.Keys ensures k in m1.Keys { assert SameEntry(m1, m2, k); }
    }
    forall k | k in m1 ensures m1[k] == m2[k] { assert SameEntry(m1, m2, k); }
  }

  /**
   * Writes never accumulate: writing the same container list a second time
   * leaves all three metrics as the first time left them.
   */
  lemma ApplyAllIdempotent(t: Tables, cs: seq<Container>)
    ensures ApplyAll(ApplyAll(t, cs), cs) == ApplyAll(t, cs)
  {
    var once := ApplyAll(t, cs);
    var twice := ApplyAll(once, cs);
    forall k
      ensures SameEntry(twice.restartCount, once.restartCount, k)
      ensures SameEntry(twice.oomKilled, once.oomKilled, k)
      ensures SameEntry(twice.status, once.status, k)
    {
      GaugeEntries(t, cs, k);
      GaugeEntries(once, cs, k);
      StatusEntry(t, cs, k);
      StatusEntry(once, cs, k);
    }
    MapsEqual(twice.restartCount, once.restartCount);
    MapsEqual(twice.oomKilled, once.oomKilled);
    MapsEqual(twice.status, once.status);
  }

  /** Polling the same snapshot again gives the same metrics. */
  lemma PollIdempotent(t: Tables, cs: seq<Container>)
    ensures PollTables(PollTables(t, cs), cs) == PollTables(t, cs)
  {
    ApplyAllIdempotent(t, cs[..WrittenCount(cs)]);
  }

  /**
   * A poll that ends normally has written every container; one that aborts
   * has written the containers up to and including the rejected one, and no
   * label set used only by later containers is touched.
   */
  lemma AbortedPollSkipsRest(t: Tables, cs: seq<Container>, key: LabelSet)
    requires PollOutcomeOf(cs).Aborted?
    requires forall i :: 0 <= i <= PollOutcomeOf(cs).index ==> LabelsOf(cs[i]) != key
    ensures var r := PollTables(t, cs);
      && SameEntry(r.restartCount, t.restartCount, key)
      && SameEntry(r.oomKilled, t.oomKilled, key)
      && SameEntry(r.status, t.status, key)
  {
    UntouchedOutsideSnapshot(t, cs[..WrittenCount(cs)], key);
  }

  /** A poll that ends normally is the write of the whole snapshot. */
  lemma CompletedPollWritesAll(t: Tables, cs: seq<Container>)
    requires PollOutcomeOf(cs).Completed?
    ensures PollTables(t, cs) == ApplyAll(t, cs)
  {
    assert cs[..|cs|] == cs;
  }
}

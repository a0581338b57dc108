/**
 * The per-container classification done inside one poll: which label set a
 * container's samples are written under, and the numeric OOM value.
 */
module Classify {

  /** Container label keys the compose tags are read from. */
  const ComposeProjectKey: string := "com.docker.compose.project"
  const ComposeServiceKey: string := "com.docker.compose.service"

  /**
   * The fields of one entry of the runtime's container list that a poll reads:
   * the name, the label mapping, the status string, `attrs['RestartCount']`
   * and `attrs['State']['OOMKilled']`.
   */
  datatype Container = Container(
    name: string,
    labels: map<string, string>,
    status: string,
    restartCount: nat,
    oomKilled: bool)

  /** The label values `(name, compose_project, compose_service)` of one series. */
  datatype LabelSet = LabelSet(name: string, composeProject: string, composeService: string)

  /** A mapping lookup that falls back to the empty string when the key is absent. */
  function LabelOrEmpty(labels: map<string, string>, key: string): string
  {
    if key in labels then labels[key] else ""
  }

  /**
   * The label set all three container metrics are written under. A missing
   * compose label is never an error: it becomes the empty string.
   */
  function LabelsOf(c: Container): (k: LabelSet)
    ensures k.name == c.name
    ensures ComposeProjectKey in c.labels ==> k.composeProject == c.labels[ComposeProjectKey]
    ensures ComposeProjectKey !in c.labels ==> k.composeProject == ""
    ensures ComposeServiceKey in c.labels ==> k.composeService == c.labels[ComposeServiceKey]
    ensures ComposeServiceKey !in c.labels ==> k.composeService == ""
  {
    LabelSet(c.name, LabelOrEmpty(c.labels, ComposeProjectKey), LabelOrEmpty(c.labels, ComposeServiceKey))
  }

  /** A container without compose labels gets empty compose tags. */
  lemma UncomposedContainerLabels(c: Container)
    requires ComposeProjectKey !in c.labels && ComposeServiceKey !in c.labels
    ensures LabelsOf(c) == LabelSet(c.name, "", "")
  {
  }

  /**
   * Only the name and the two compose labels decide the label set: any other
   * labels, the status, the restart count and the OOM flag do not.
   */
  lemma LabelsIgnoreOtherFields(c: Container, d: Container)
    requires c.name == d.name
    requires ComposeProjectKey in c.labels <==> ComposeProjectKey in d.labels
    requires ComposeProjectKey in c.labels ==> c.labels[ComposeProjectKey] == d.labels[ComposeProjectKey]
    requires ComposeServiceKey in c.labels <==> ComposeServiceKey in d.labels
    requires ComposeServiceKey in c.labels ==> c.labels[ComposeServiceKey] == d.labels[ComposeServiceKey]
    ensures LabelsOf(c) == LabelsOf(d)
  {
  }

  /** The `container_oom_killed` value: 1 when the OOM flag is set, else 0. */
  function OomValue(c: Container): (v: int)
    ensures v == 0 || v == 1
    ensures v == 1 <==> c.oomKilled
  {
    if c.oomKilled then 1 else 0
  }
}

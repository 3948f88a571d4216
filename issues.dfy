/** The issue records the miner works on and their wrapping as labelled
    examples (`IssueExample` in labelmaker/src/main.go). */
module Issues {

  /** The label whose presence the classifier learns to predict. */
  const TargetLabel: string := "Cr-Blink"

  /** One bug-tracker issue. Only the keys of `labels` carry meaning. */
  datatype Issue = Issue(id: int, title: string, content: string, labels: map<string, string>)

  /** An issue seen as a training example. */
  datatype Example = IssueExample(issue: Issue)
  {
    /** Whether the issue carries the target label. */
    predicate Label()
    {
      TargetLabel in issue.labels
    }
  }

  /** The label is decided by the key set of the label map alone: the
      values stored under the keys, and every other field, are irrelevant. */
  lemma LabelDependsOnlyOnKeys(e1: Example, e2: Example)
    requires e1.issue.labels.Keys == e2.issue.labels.Keys
    ensures e1.Label() == e2.Label()
  {
  }
}

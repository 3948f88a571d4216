/** The label diagnostics of labelmaker/src/main.go:
    `debugCountLabelOccurrence`, reduced to the count it prints, and the
    label-driven split of per-example weights in `debugDumpExampleWeights`. */
module Diagnostics {
  import opened Issues

  /** How many of `es` carry the target label. */
  function Positives(es: seq<Example>): nat
  {
    if |es| == 0 then 0
    else Positives(es[..|es| - 1]) + (if es[|es| - 1].Label() then 1 else 0)
  }

  /** The examples of `es` that carry the target label, and those that do not. */
  function WithLabel(es: seq<Example>, positive: bool): seq<Example>
  {
    if |es| == 0 then []
    else WithLabel(es[..|es| - 1], positive) + (if es[|es| - 1].Label() == positive then [es[|es| - 1]] else [])
  }

  /** The positive count is the length of the positive sub-sequence; the
      positives and the negatives together are all of `es`, so the count
      never exceeds `|es|`. */
  lemma {:induction false} PositivesCounts(es: seq<Example>)
    ensures Positives(es) == |WithLabel(es, true)|
    ensures |WithLabel(es, true)| + |WithLabel(es, false)| == |es|
    ensures Positives(es) <= |es|
  {
    if |es| > 0 {
      PositivesCounts(es[..|es| - 1]);
    }
  }

  /** `debugCountLabelOccurrence`, without its output: the number of
      positively labelled examples. */
  method CountLabelOccurrence(es: seq<Example>) returns (n: nat)
    ensures n == Positives(es)
    ensures n <= |es|
  {
    n := 0;
    for i := 0 to |es|
      invariant n == Positives(es[..i])
    {
      assert es[..i + 1][..i] == es[..i];
      if es[i].Label() {
        n := n + 1;
      }
    }
    assert es[..|es|] == es;
    PositivesCounts(es);
  }

  /** The weights, in order, of the examples whose label is `positive`. */
  function WeightsWithLabel<W>(es: seq<Example>, weights: seq<W>, positive: bool): seq<W>
    requires |es| <= |weights|
  {
    if |es| == 0 then []
    else
      var n := |es| - 1;
      WeightsWithLabel(es[..n], weights, positive) + (if es[n].Label() == positive then [weights[n]] else [])
  }

  /** A stable filter keeps exactly one weight per example of that label,
      and every weight kept belongs to an example of that label. */
  lemma {:induction false} WeightsWithLabelShape<W>(es: seq<Example>, weights: seq<W>, positive: bool)
    requires |es| <= |weights|
    ensures |WeightsWithLabel(es, weights, positive)| == |WithLabel(es, positive)|
    ensures forall w :: w in WeightsWithLabel(es, weights, positive) ==>
      exists i :: 0 <= i < |es| && es[i].Label() == positive && weights[i] == w
  {
    if |es| > 0 {
      var n := |es| - 1;
      WeightsWithLabelShape(es[..n], weights, positive);
      assert forall i :: 0 <= i < n ==> es[..n][i] == es[i];
    }
  }

  /** The loop of `debugDumpExampleWeights`: the weight of example i goes
      to `positives` when the example carries the label, to `negatives`
      otherwise. */
  method SplitWeightsByLabel<W>(examples: seq<Example>, weights: seq<W>)
    returns (positives: seq<W>, negatives: seq<W>)
    requires |examples| <= |weights|
    ensures positives == WeightsWithLabel(examples, weights, true)
    ensures negatives == WeightsWithLabel(examples, weights, false)
  {
    positives, negatives := [], [];
    for i := 0 to |examples|
      invariant positives == WeightsWithLabel(examples[..i], weights, true)
      invariant negatives == WeightsWithLabel(examples[..i], weights, false)
    {
      assert examples[..i + 1][..i] == examples[..i];
      if examples[i].Label() {
        positives := positives + [weights[i]];
      } else {
        negatives := negatives + [weights[i]];
      }
    }
    assert examples[..|examples|] == examples;
  }

  /** Every example's weight lands in exactly one of the two lists:
      together they have one entry per example. */
  lemma SplitWeightsCovers<W>(examples: seq<Example>, weights: seq<W>)
    requires |examples| <= |weights|
    ensures |WeightsWithLabel(examples, weights, true)| + |WeightsWithLabel(examples, weights, false)| == |examples|
    ensures |WeightsWithLabel(examples, weights, true)| == Positives(examples)
  {
    WeightsWithLabelShape(examples, weights, true);
    WeightsWithLabelShape(examples, weights, false);
    PositivesCounts(examples);
  }
}

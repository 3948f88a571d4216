/** The dev/validation/test split at the start of `main` in
    labelmaker/src/main.go. Each issue is routed by one draw of
    `r.Intn(9)`; the draws are an input here, one per issue. */
module Partitioning {
  import opened Issues

  /** Where one issue ends up. `Dropped` is where the empty `case 0:`,
      `case 1:` and `case 3:` arms send an issue: Go's `switch` does not
      fall through, so those issues join no partition. */
  datatype Destination = Dev | Validation | Test | Dropped

  /** The `switch` on one draw. */
  function Route(draw: int): (d: Destination)
    ensures d == Test <==> draw == 2
    ensures d == Validation <==> draw == 4
    ensures d == Dropped <==> draw == 0 || draw == 1 || draw == 3
  {
    if draw == 0 || draw == 1 then Dropped
    else if draw == 2 then Test
    else if draw == 3 then Dropped
    else if draw == 4 then Validation
    else Dev
  }

  /** The routing table for the draws `Intn(9)` can return. */
  lemma RouteTable(draw: int)
    requires 0 <= draw < 9
    ensures Route(draw) == Test <==> draw == 2
    ensures Route(draw) == Validation <==> draw == 4
    ensures Route(draw) == Dev <==> 5 <= draw <= 8
    ensures Route(draw) == Dropped <==> draw in {0, 1, 3}
  {
  }

  /** The indices, in increasing order, of the draws routed to `d`. */
  function Positions(draws: seq<int>, d: Destination): seq<nat>
  {
    if |draws| == 0 then []
    else
      var n := |draws| - 1;
      Positions(draws[..n], d) + (if Route(draws[n]) == d then [n] else [])
  }

  /** Index `k` is among the positions of `d` exactly when draw `k` is
      routed to `d`; the positions are strictly increasing, so each
      partition keeps the issues in their loaded order. */
  lemma {:induction false} PositionsCharacterized(draws: seq<int>, d: Destination)
    ensures forall k :: k in Positions(draws, d) <==> 0 <= k < |draws| && Route(draws[k]) == d
    ensures forall i :: 0 <= i < |Positions(draws, d)| ==> Positions(draws, d)[i] < |draws|
    ensures forall i, j :: 0 <= i < j < |Positions(draws, d)| ==> Positions(draws, d)[i] < Positions(draws, d)[j]
  {
    if |draws| > 0 {
      var n := |draws| - 1;
      var init := draws[..n];
      PositionsCharacterized(init, d);
      var before := Positions(init, d);
      var tail: seq<nat> := if Route(draws[n]) == d then [n] else [];
      var ps := before + tail;
      assert Positions(draws, d) == ps;
      forall k ensures k in ps <==> 0 <= k < |draws| && Route(draws[k]) == d {
        assert k in ps <==> k in before || k in tail;
        if 0 <= k < n {
          assert init[k] == draws[k];
        }
      }
      forall i, j | 0 <= i < j < |ps| ensures ps[i] < ps[j] {
        if j >= |before| {
          assert ps[j] == n;
          assert ps[i] == before[i];
        }
      }
    }
  }

  /** The four destinations share out the indices: their position lists
      have |draws| entries in all. */
  lemma {:induction false} PositionsCount(draws: seq<int>)
    ensures |Positions(draws, Dev)| + |Positions(draws, Validation)| + |Positions(draws, Test)|
          + |Positions(draws, Dropped)| == |draws|
  {
    if |draws| > 0 {
      PositionsCount(draws[..|draws| - 1]);
    }
  }

  /** The examples wrapping the issues at the given positions. */
  function Gather(issues: seq<Issue>, ps: seq<nat>): (es: seq<Example>)
    requires forall j :: 0 <= j < |ps| ==> ps[j] < |issues|
  {
    seq(|ps|, j requires 0 <= j < |ps| => IssueExample(issues[ps[j]]))
  }

  /** The partition that `d` receives. */
  function Partition(issues: seq<Issue>, draws: seq<int>, d: Destination): seq<Example>
    requires |draws| == |issues|
  {
    PositionsCharacterized(draws, d);
    Gather(issues, Positions(draws, d))
  }

  /** The split loop: append each issue, wrapped as an example, to the
      partition its draw selects. */
  method DivideIssues(issues: seq<Issue>, draws: seq<int>) returns (dev: seq<Example>, validation: seq<Example>, test: seq<Example>)
    requires |draws| == |issues|
    ensures dev == Partition(issues, draws, Dev)
    ensures validation == Partition(issues, draws, Validation)
    ensures test == Partition(issues, draws, Test)
  {
    dev, validation, test := [], [], [];
    for i := 0 to |issues|
      invariant dev == Partition(issues[..i], draws[..i], Dev)
      invariant validation == Partition(issues[..i], draws[..i], Validation)
      invariant test == Partition(issues[..i], draws[..i], Test)
    {
      PartitionStep(issues, draws, i, Dev);
      PartitionStep(issues, draws, i, Validation);
      PartitionStep(issues, draws, i, Test);
      match Route(draws[i])
      case Test => test := test + [IssueExample(issues[i])];
      case Validation => validation := validation + [IssueExample(issues[i])];
      case Dev => dev := dev + [IssueExample(issues[i])];
      case Dropped =>
    }
    assert issues[..|issues|] == issues && draws[..|draws|] == draws;
  }

  /** One more issue extends exactly the partition its draw selects. */
  lemma PartitionStep(issues: seq<Issue>, draws: seq<int>, i: int, d: Destination)
    requires |draws| == |issues| && 0 <= i < |issues|
    ensures Partition(issues[..i + 1], draws[..i + 1], d) ==
      Partition(issues[..i], draws[..i], d) + (if Route(draws[i]) == d then [IssueExample(issues[i])] else [])
  {
    PositionsPrefix(draws, i, d);
    PositionsCharacterized(draws[..i], d);
    var before := Positions(draws[..i], d);
    var lhs := Partition(issues[..i + 1], draws[..i + 1], d);
    var rhs := Partition(issues[..i], draws[..i], d) + (if Route(draws[i]) == d then [IssueExample(issues[i])] else []);
    assert |lhs| == |rhs|;
    forall j | 0 <= j < |lhs| ensures lhs[j] == rhs[j] {
      if j < |before| {
        assert lhs[j] == IssueExample(issues[..i + 1][before[j]]);
        assert rhs[j] == IssueExample(issues[..i][before[j]]);
      }
    }
  }

  /** The partition rule: issue k is in the test partition iff its draw is
      2, in validation iff it is 4, in dev iff it is 5 to 8, and in none
      iff it is 0, 1 or 3; each partition lists its issues in loaded order. */
  lemma PartitionMembership(issues: seq<Issue>, draws: seq<int>, k: int)
    requires |draws| == |issues| && 0 <= k < |issues|
    requires forall j :: 0 <= j < |draws| ==> 0 <= draws[j] < 9
    ensures k in Positions(draws, Test) <==> draws[k] == 2
    ensures k in Positions(draws, Validation) <==> draws[k] == 4
    ensures k in Positions(draws, Dev) <==> 5 <= draws[k] <= 8
    ensures (k !in Positions(draws, Test) && k !in Positions(draws, Validation) && k !in Positions(draws, Dev))
        <==> draws[k] in {0, 1, 3}
  {
    PositionsCharacterized(draws, Test);
    PositionsCharacterized(draws, Validation);
    PositionsCharacterized(draws, Dev);
    RouteTable(draws[k]);
  }

  /** The partitions are disjoint: no index reaches two of them. */
  lemma PartitionsDisjoint(draws: seq<int>, d1: Destination, d2: Destination)
    requires d1 != d2
    ensures forall k :: k in Positions(draws, d1) ==> k !in Positions(draws, d2)
  {
    PositionsCharacterized(draws, d1);
    PositionsCharacterized(draws, d2);
  }

  /** The three partitions together hold at most as many examples as
      there are issues. */
  lemma PartitionsBounded(issues: seq<Issue>, draws: seq<int>)
    requires |draws| == |issues|
    ensures |Partition(issues, draws, Dev)| + |Partition(issues, draws, Validation)|
          + |Partition(issues, draws, Test)| <= |issues|
  {
    PositionsCount(draws);
  }

  /** One more draw extends the positions of its destination by its index. */
  lemma PositionsPrefix(draws: seq<int>, k: int, d: Destination)
    requires 0 <= k < |draws|
    ensures Positions(draws[..k + 1], d) ==
      Positions(draws[..k], d) + (if Route(draws[k]) == d then [k] else [])
  {
    assert draws[..k + 1][..k] == draws[..k];
  }

  /** Nine issues drawing 0, 1, ..., 8 in turn: issue 2 goes to test,
      issue 4 to validation, issues 5 to 8 to dev, and issues 0, 1 and 3
      to no partition. */
  lemma NineDraws(d: Destination)
    ensures Positions([0, 1, 2, 3, 4, 5, 6, 7, 8], d) ==
      match d
      case Test => [2]
      case Validation => [4]
      case Dev => [5, 6, 7, 8]
      case Dropped => [0, 1, 3]
  {
    var ds := [0, 1, 2, 3, 4, 5, 6, 7, 8];
    assert ds[..0] == [];
    PositionsPrefix(ds, 0, d);
    PositionsPrefix(ds, 1, d);
    PositionsPrefix(ds, 2, d);
    PositionsPrefix(ds, 3, d);
    PositionsPrefix(ds, 4, d);
    PositionsPrefix(ds, 5, d);
    PositionsPrefix(ds, 6, d);
    PositionsPrefix(ds, 7, d);
    PositionsPrefix(ds, 8, d);
    assert ds[..9] == ds;
  }
}

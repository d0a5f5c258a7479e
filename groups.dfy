/**
 * Totals over a group of interacting strands (`GroupBreaksolution`) and over
 * the whole design (`CompleteBreakSolution`): scores and duplex lengths are
 * summed over the solutions that exist, crossover claims between strands of
 * a group are counted and halved, and a total is complete only when nothing
 * it sums over is missing.
 */
module Groups {
  import opened Options
  import opened BreakEdges
  import opened Solutions

  /**
   * A Python dict seen as its keys in iteration order: every key once, and
   * exactly the keys of the map.
   */
  ghost predicate Keyed<K(!new), V>(order: seq<K>, m: map<K, V>) {
    (forall i, j :: 0 <= i < j < |order| ==> order[i] != order[j])
    && (forall k :: k in m <==> k in order)
  }

  /** Sum of `f` over the keys in `order`. */
  function Sum(order: seq<nat>, f: nat -> int): int {
    if order == [] then 0 else Sum(order[..|order| - 1], f) + f(order[|order| - 1])
  }

  /**
   * Changing `f` at one key that occurs once changes the sum by exactly the
   * change at that key; the other keys' terms are untouched.
   */
  lemma {:induction false} SumUpdate(order: seq<nat>, f: nat -> int, g: nat -> int, k: nat)
    requires forall i, j :: 0 <= i < j < |order| ==> order[i] != order[j]
    requires forall x :: x != k ==> f(x) == g(x)
    ensures Sum(order, g) == Sum(order, f) + (if k in order then g(k) - f(k) else 0)
  {
    if order != [] {
      var init := order[..|order| - 1];
      SumUpdate(init, f, g, k);
      assert k in order <==> k in init || k == order[|order| - 1];
      assert order[|order| - 1] !in init by {
        forall i | 0 <= i < |init| ensures init[i] != order[|order| - 1] {
          assert init[i] == order[i];
        }
      }
    }
  }

  lemma SumSingle(k: nat, f: nat -> int)
    ensures Sum([k], f) == f(k)
  {
    assert [k][..0] == [];
  }

  /** Nonnegative terms give a nonnegative sum. */
  lemma {:induction false} SumNonnegative(order: seq<nat>, f: nat -> int)
    requires forall x :: f(x) >= 0
    ensures Sum(order, f) >= 0
  {
    if order != [] {
      SumNonnegative(order[..|order| - 1], f);
    }
  }

  /** The sum is at most the sum of any pointwise larger terms. */
  lemma {:induction false} SumMonotone(order: seq<nat>, f: nat -> int, g: nat -> int)
    requires forall x :: f(x) <= g(x)
    ensures Sum(order, f) <= Sum(order, g)
  {
    if order != [] {
      SumMonotone(order[..|order| - 1], f, g);
    }
  }

  // ---------------------------------------------------------------------
  // One group of strands
  // ---------------------------------------------------------------------

  /** The strand under key `k` has a solution (Python: the dict value is truthy). */
  predicate Present(sols: map<nat, Option<Solution>>, k: nat) {
    k in sols && sols[k].Some?
  }

  /**
   * A cut break whose neighbour break is a break of the solution kept for the
   * neighbour's own strand in this group: one side of a crossover claimed
   * twice.
   */
  predicate CrossClaim(b: nat, neighborOf: nat -> Option<nat>, oligoOf: nat -> nat, sols: map<nat, Option<Solution>>) {
    neighborOf(b).Some?
    && Present(sols, oligoOf(neighborOf(b).value))
    && neighborOf(b).value in sols[oligoOf(neighborOf(b).value)].value.breaks
  }

  /** How many of `bs` make a cross claim. */
  function CrossCount(bs: seq<nat>, neighborOf: nat -> Option<nat>, oligoOf: nat -> nat, sols: map<nat, Option<Solution>>): nat {
    if bs == [] then 0
    else
      CrossCount(bs[..|bs| - 1], neighborOf, oligoOf, sols)
      + (if CrossClaim(bs[|bs| - 1], neighborOf, oligoOf, sols) then 1 else 0)
  }

  /** The score a strand contributes: its solution's score, or nothing when absent. */
  function SolutionScore(sols: map<nat, Option<Solution>>, k: nat): int {
    if Present(sols, k) then sols[k].value.score else 0
  }

  function SolutionDsDna(sols: map<nat, Option<Solution>>, k: nat): int {
    if Present(sols, k) then DsDnaLength(sols[k].value.edges) else 0
  }

  /** The cross claims of a strand's cut breaks (all but its last break). */
  function SolutionClaims(sols: map<nat, Option<Solution>>, k: nat, neighborOf: nat -> Option<nat>, oligoOf: nat -> nat): int {
    if Present(sols, k) then CrossCount(AllButLast(sols[k].value.breaks), neighborOf, oligoOf, sols) else 0
  }

  function GroupScore(order: seq<nat>, sols: map<nat, Option<Solution>>): int {
    Sum(order, (k: nat) => SolutionScore(sols, k))
  }

  function GroupDsDna(order: seq<nat>, sols: map<nat, Option<Solution>>): int {
    Sum(order, (k: nat) => SolutionDsDna(sols, k))
  }

  function GroupClaims(order: seq<nat>, sols: map<nat, Option<Solution>>, neighborOf: nat -> Option<nat>, oligoOf: nat -> nat): int {
    Sum(order, (k: nat) => SolutionClaims(sols, k, neighborOf, oligoOf))
  }

  /** Every strand iterated over has a solution. */
  predicate AllPresent(order: seq<nat>, sols: map<nat, Option<Solution>>) {
    forall i :: 0 <= i < |order| ==> Present(sols, order[i])
  }

  /** How many breaks of the present solutions can be cut (all but the last of each). */
  function GroupCuts(order: seq<nat>, sols: map<nat, Option<Solution>>): int {
    Sum(order, (k: nat) => if Present(sols, k) then |AllButLast(sols[k].value.breaks)| else 0)
  }

  lemma {:induction false} CrossCountBound(bs: seq<nat>, neighborOf: nat -> Option<nat>, oligoOf: nat -> nat, sols: map<nat, Option<Solution>>)
    ensures CrossCount(bs, neighborOf, oligoOf, sols) <= |bs|
  {
    if bs != [] {
      CrossCountBound(bs[..|bs| - 1], neighborOf, oligoOf, sols);
    }
  }

  /**
   * The group penalty is never negative and is at most half the number of
   * cut breaks of the present solutions: each cut break claims at most once.
   */
  lemma GroupPenaltyBound(order: seq<nat>, sols: map<nat, Option<Solution>>, neighborOf: nat -> Option<nat>, oligoOf: nat -> nat)
    ensures 0 <= GroupClaims(order, sols, neighborOf, oligoOf) / 2 <= GroupCuts(order, sols) / 2
    ensures GroupDsDna(order, sols) >= 0
  {
    var f := (k: nat) => SolutionClaims(sols, k, neighborOf, oligoOf);
    var g := (k: nat) => if Present(sols, k) then |AllButLast(sols[k].value.breaks)| else 0;
    forall x ensures 0 <= f(x) <= g(x) {
      if Present(sols, x) {
        CrossCountBound(AllButLast(sols[x].value.breaks), neighborOf, oligoOf, sols);
      }
    }
    SumNonnegative(order, f);
    SumMonotone(order, f, g);
    SumNonnegative(order, (k: nat) => SolutionDsDna(sols, k));
  }

  /**
   * Iterating over the dict's keys finds no missing solution exactly when no
   * value of the dict is missing.
   */
  lemma AllPresentIff(order: seq<nat>, sols: map<nat, Option<Solution>>)
    requires Keyed(order, sols)
    ensures AllPresent(order, sols) <==> forall k :: k in sols ==> sols[k].Some?
  {
    if AllPresent(order, sols) {
      forall k | k in sols ensures sols[k].Some? {
        var i :| 0 <= i < |order| && order[i] == k;
      }
    }
  }

  /**
   * With a single strand whose breaks all belong to that strand, the group
   * penalty is the strand's own self penalty (`calculate_self_penalty`).
   */
  lemma SingleStrandPenalty(k: nat, s: Solution, neighborOf: nat -> Option<nat>, oligoOf: nat -> nat)
    requires forall x :: x in s.breaks ==> oligoOf(x) == k
    ensures GroupClaims([k], map[k := Some(s)], neighborOf, oligoOf) / 2 == SelfPenalty(s, neighborOf)
    ensures GroupScore([k], map[k := Some(s)]) == s.score
  {
    var sols := map[k := Some(s)];
    CrossCountSingle(AllButLast(s.breaks), k, s, neighborOf, oligoOf);
    SumSingle(k, (x: nat) => SolutionClaims(sols, x, neighborOf, oligoOf));
    SumSingle(k, (x: nat) => SolutionScore(sols, x));
  }

  lemma {:induction false} CrossCountSingle(bs: seq<nat>, k: nat, s: Solution, neighborOf: nat -> Option<nat>, oligoOf: nat -> nat)
    requires forall x :: x in s.breaks ==> oligoOf(x) == k
    ensures CrossCount(bs, neighborOf, oligoOf, map[k := Some(s)]) == ClaimCount(bs, neighborOf, s.breaks)
  {
    if bs != [] {
      CrossCountSingle(bs[..|bs| - 1], k, s, neighborOf, oligoOf);
    }
  }

  /**
   * Losing one strand's solution lowers the group score and duplex length by
   * exactly that solution's share, and leaves the group incomplete.
   */
  lemma DropSolution(order: seq<nat>, sols: map<nat, Option<Solution>>, k: nat)
    requires Keyed(order, sols) && k in sols
    ensures GroupScore(order, sols[k := None]) == GroupScore(order, sols) - SolutionScore(sols, k)
    ensures GroupDsDna(order, sols[k := None]) == GroupDsDna(order, sols) - SolutionDsDna(sols, k)
    ensures !AllPresent(order, sols[k := None])
  {
    var sols' := sols[k := None];
    SumUpdate(order, (x: nat) => SolutionScore(sols, x), (x: nat) => SolutionScore(sols', x), k);
    SumUpdate(order, (x: nat) => SolutionDsDna(sols, x), (x: nat) => SolutionDsDna(sols', x), k);
    var i :| 0 <= i < |order| && order[i] == k;
    assert !Present(sols', order[i]);
  }

  /** One more strand of the iteration adds its share to each group total. */
  lemma GroupStep(order: seq<nat>, i: nat, sols: map<nat, Option<Solution>>, neighborOf: nat -> Option<nat>, oligoOf: nat -> nat)
    requires i < |order|
    ensures GroupScore(order[..i + 1], sols) == GroupScore(order[..i], sols) + SolutionScore(sols, order[i])
    ensures GroupDsDna(order[..i + 1], sols) == GroupDsDna(order[..i], sols) + SolutionDsDna(sols, order[i])
    ensures GroupClaims(order[..i + 1], sols, neighborOf, oligoOf)
      == GroupClaims(order[..i], sols, neighborOf, oligoOf) + SolutionClaims(sols, order[i], neighborOf, oligoOf)
    ensures AllPresent(order[..i + 1], sols) <==> AllPresent(order[..i], sols) && Present(sols, order[i])
  {
    assert order[..i + 1][..i] == order[..i];
  }

  /** What `calculate_total_score` reads from a group solution. */
  datatype GroupTotals = GroupTotals(score: int, penalty: int, dsDna: int, complete: bool)

  /** `GroupBreaksolution`: the solutions chosen for each strand of a group, and their totals. */
  class GroupSolution {
    /** The keys of `break_solutions` in iteration order. */
    const order: seq<nat>
    const breakSolutions: map<nat, Option<Solution>>
    var totalScore: int
    var totalPenalty: int
    var totalDsDna: int
    var complete: bool

    constructor(order: seq<nat>, breakSolutions: map<nat, Option<Solution>>)
      requires Keyed(order, breakSolutions)
      ensures this.order == order && this.breakSolutions == breakSolutions
      ensures totalScore == 0 && totalPenalty == 0 && totalDsDna == 0 && complete
    {
      this.order := order;
      this.breakSolutions := breakSolutions;
      totalScore := 0;
      totalPenalty := 0;
      totalDsDna := 0;
      complete := true;
    }

    function Totals(): GroupTotals
      reads this
    {
      GroupTotals(totalScore, totalPenalty, totalDsDna, complete)
    }

    /**
     * `calculate_penalty`: sum the present solutions' scores and duplex
     * lengths, count the cross claims of their cut breaks, halve the count
     * (rounding down), and record whether some solution is missing.
     */
    method CalculatePenalty(neighborOf: nat -> Option<nat>, oligoOf: nat -> nat)
      requires Keyed(order, breakSolutions)
      modifies this
      ensures totalScore == GroupScore(order, breakSolutions)
      ensures totalDsDna == GroupDsDna(order, breakSolutions)
      ensures totalPenalty == GroupClaims(order, breakSolutions, neighborOf, oligoOf) / 2
      ensures complete <==> AllPresent(order, breakSolutions)
    {
      totalScore := 0;
      totalPenalty := 0;
      totalDsDna := 0;
      complete := true;
      var i := 0;
      while i < |order|
        invariant 0 <= i <= |order|
        invariant totalScore == GroupScore(order[..i], breakSolutions)
        invariant totalDsDna == GroupDsDna(order[..i], breakSolutions)
        invariant totalPenalty == GroupClaims(order[..i], breakSolutions, neighborOf, oligoOf)
        invariant complete <==> AllPresent(order[..i], breakSolutions)
      {
        GroupStep(order, i, breakSolutions, neighborOf, oligoOf);
        var key := order[i];
        var solution := breakSolutions[key];
        if solution.None? {
          complete := false;
        } else {
          totalScore := totalScore + solution.value.score;
          var len := CalculateDsDnaLength(solution.value);
          totalDsDna := totalDsDna + len;
          var claims := CountCrossClaims(AllButLast(solution.value.breaks), neighborOf, oligoOf, breakSolutions);
          totalPenalty := totalPenalty + claims;
        }
        i := i + 1;
      }
      assert order[..i] == order;
      totalPenalty := totalPenalty / 2;
    }
  }

  /** The inner loop of `calculate_penalty` over one solution's cut breaks. */
  method CountCrossClaims(cut: seq<nat>, neighborOf: nat -> Option<nat>, oligoOf: nat -> nat, sols: map<nat, Option<Solution>>)
    returns (count: nat)
    ensures count == CrossCount(cut, neighborOf, oligoOf, sols)
    ensures count <= |cut|
  {
    count := 0;
    var j := 0;
    while j < |cut|
      invariant 0 <= j <= |cut|
      invariant count == CrossCount(cut[..j], neighborOf, oligoOf, sols)
      invariant count <= j
    {
      assert cut[..j + 1][..j] == cut[..j];
      var nb := neighborOf(cut[j]);
      if nb.Some? {
        var key := oligoOf(nb.value);
        if key in sols && sols[key].Some? && nb.value in sols[key].value.breaks {
          count := count + 1;
        }
      }
      j := j + 1;
    }
    assert cut[..j] == cut;
  }

  // ---------------------------------------------------------------------
  // The whole design
  // ---------------------------------------------------------------------

  /** The group under `k` exists (Python: the dict value is truthy). */
  predicate GroupPresent(groups: map<nat, Option<GroupTotals>>, k: nat) {
    k in groups && groups[k].Some?
  }

  function TotalScore(order: seq<nat>, groups: map<nat, Option<GroupTotals>>): int {
    Sum(order, (k: nat) => if GroupPresent(groups, k) then groups[k].value.score else 0)
  }

  function TotalPenalty(order: seq<nat>, groups: map<nat, Option<GroupTotals>>): int {
    Sum(order, (k: nat) => if GroupPresent(groups, k) then groups[k].value.penalty else 0)
  }

  function TotalDsDna(order: seq<nat>, groups: map<nat, Option<GroupTotals>>): int {
    Sum(order, (k: nat) => if GroupPresent(groups, k) then groups[k].value.dsDna else 0)
  }

  /** Every group exists and is itself complete. */
  predicate AllComplete(order: seq<nat>, groups: map<nat, Option<GroupTotals>>) {
    forall i :: 0 <= i < |order| ==> GroupPresent(groups, order[i]) && groups[order[i]].value.complete
  }

  /**
   * A design is complete exactly when every group of the dict exists and is
   * complete, and then every strand of every group has a solution.
   */
  lemma AllCompleteIff(order: seq<nat>, groups: map<nat, Option<GroupTotals>>)
    requires Keyed(order, groups)
    ensures AllComplete(order, groups) <==> forall k :: k in groups ==> groups[k].Some? && groups[k].value.complete
  {
    if AllComplete(order, groups) {
      forall k | k in groups ensures groups[k].Some? && groups[k].value.complete {
        var i :| 0 <= i < |order| && order[i] == k;
      }
    }
  }

  /**
   * The design totals of groups whose totals came from `calculate_penalty`
   * are the totals over all their strands: with one group, its score and
   * duplex length, and complete exactly when every strand has a solution.
   */
  lemma SingleGroupTotals(k: nat, order: seq<nat>, sols: map<nat, Option<Solution>>, neighborOf: nat -> Option<nat>, oligoOf: nat -> nat)
    ensures var t := GroupTotals(GroupScore(order, sols), GroupClaims(order, sols, neighborOf, oligoOf) / 2,
                                 GroupDsDna(order, sols), AllPresent(order, sols));
      TotalScore([k], map[k := Some(t)]) == GroupScore(order, sols)
      && TotalDsDna([k], map[k := Some(t)]) == GroupDsDna(order, sols)
      && TotalPenalty([k], map[k := Some(t)]) == GroupClaims(order, sols, neighborOf, oligoOf) / 2
      && (AllComplete([k], map[k := Some(t)]) <==> AllPresent(order, sols))
  {
    var t := GroupTotals(GroupScore(order, sols), GroupClaims(order, sols, neighborOf, oligoOf) / 2,
                         GroupDsDna(order, sols), AllPresent(order, sols));
    var groups := map[k := Some(t)];
    SumSingle(k, (x: nat) => if GroupPresent(groups, x) then groups[x].value.score else 0);
    SumSingle(k, (x: nat) => if GroupPresent(groups, x) then groups[x].value.penalty else 0);
    SumSingle(k, (x: nat) => if GroupPresent(groups, x) then groups[x].value.dsDna else 0);
  }

  /** Extending the keys by one adds that group's totals, and keeps completeness only when the group exists and is complete. */
  lemma TotalsStep(order: seq<nat>, groups: map<nat, Option<GroupTotals>>, i: nat)
    requires i < |order|
    ensures var k := order[i];
      && TotalScore(order[..i + 1], groups) == TotalScore(order[..i], groups) + (if GroupPresent(groups, k) then groups[k].value.score else 0)
      && TotalPenalty(order[..i + 1], groups) == TotalPenalty(order[..i], groups) + (if GroupPresent(groups, k) then groups[k].value.penalty else 0)
      && TotalDsDna(order[..i + 1], groups) == TotalDsDna(order[..i], groups) + (if GroupPresent(groups, k) then groups[k].value.dsDna else 0)
      && (AllComplete(order[..i + 1], groups) <==> AllComplete(order[..i], groups) && GroupPresent(groups, k) && groups[k].value.complete)
  {
    assert order[..i + 1][..i] == order[..i];
    assert order[..i + 1][i] == order[i];
  }

  /**
   * Losing a group lowers the design's score by that group's score and makes
   * the design incomplete.
   */
  lemma DropGroup(order: seq<nat>, groups: map<nat, Option<GroupTotals>>, k: nat)
    requires Keyed(order, groups) && k in groups && groups[k].Some?
    ensures TotalScore(order, groups[k := None]) == TotalScore(order, groups) - groups[k].value.score
    ensures TotalDsDna(order, groups[k := None]) == TotalDsDna(order, groups) - groups[k].value.dsDna
    ensures !AllComplete(order, groups[k := None])
  {
    var groups' := groups[k := None];
    SumUpdate(order, (x: nat) => if GroupPresent(groups, x) then groups[x].value.score else 0,
                     (x: nat) => if GroupPresent(groups', x) then groups'[x].value.score else 0, k);
    SumUpdate(order, (x: nat) => if GroupPresent(groups, x) then groups[x].value.dsDna else 0,
                     (x: nat) => if GroupPresent(groups', x) then groups'[x].value.dsDna else 0, k);
    var i :| 0 <= i < |order| && order[i] == k;
    assert !GroupPresent(groups', order[i]);
  }

  /** `CompleteBreakSolution`: the chosen group solutions at one sequence offset, and their totals. */
  class CompleteSolution {
    const sequenceOffset: int
    /** The keys of `group_solutions` in iteration order. */
    const order: seq<nat>
    const groupSolutions: map<nat, Option<GroupTotals>>
    var totalScore: int
    var totalPenalty: int
    var totalDsDna: int
    var totalNormScore: real
    var complete: bool
    var correctedOffset: int

    constructor(sequenceOffset: int, order: seq<nat>, groupSolutions: map<nat, Option<GroupTotals>>)
      requires Keyed(order, groupSolutions)
      ensures this.sequenceOffset == sequenceOffset && this.order == order && this.groupSolutions == groupSolutions
      ensures totalScore == 0 && totalPenalty == 0 && totalDsDna == 0 && totalNormScore == 0.0
      ensures complete && correctedOffset == 0
    {
      this.sequenceOffset := sequenceOffset;
      this.order := order;
      this.groupSolutions := groupSolutions;
      totalScore := 0;
      totalPenalty := 0;
      totalDsDna := 0;
      totalNormScore := 0.0;
      complete := true;
      correctedOffset := 0;
    }

    /**
     * `calculate_total_score`: sum the existing groups' totals; the design is
     * complete when every group exists and is complete. The normalised score
     * divides by the total duplex length, and `raised` reports the division
     * by zero Python raises when that length is 0 (the normalised score is
     * then not assigned).
     */
    method CalculateTotalScore() returns (raised: bool)
      requires Keyed(order, groupSolutions)
      modifies this
      ensures totalScore == TotalScore(order, groupSolutions)
      ensures totalPenalty == TotalPenalty(order, groupSolutions)
      ensures totalDsDna == TotalDsDna(order, groupSolutions)
      ensures complete <==> AllComplete(order, groupSolutions)
      ensures raised <==> totalDsDna == 0
      ensures !raised ==> totalNormScore == totalScore as real / totalDsDna as real
      ensures raised ==> totalNormScore == old(totalNormScore)
      ensures correctedOffset == old(correctedOffset)
    {
      totalScore := 0;
      totalPenalty := 0;
      totalDsDna := 0;
      complete := true;
      var i := 0;
      while i < |order|
        invariant 0 <= i <= |order|
        invariant totalScore == TotalScore(order[..i], groupSolutions)
        invariant totalPenalty == TotalPenalty(order[..i], groupSolutions)
        invariant totalDsDna == TotalDsDna(order[..i], groupSolutions)
        invariant complete <==> AllComplete(order[..i], groupSolutions)
        invariant totalNormScore == old(totalNormScore) && correctedOffset == old(correctedOffset)
      {
        TotalsStep(order, groupSolutions, i);
        var group := groupSolutions[order[i]];
        if group.Some? {
          totalScore := totalScore + group.value.score;
          totalPenalty := totalPenalty + group.value.penalty;
          totalDsDna := totalDsDna + group.value.dsDna;
          complete := complete && group.value.complete;
        } else {
          complete := false;
        }
        i := i + 1;
      }
      assert order[..i] == order;
      raised := totalDsDna == 0;
      if !raised {
        totalNormScore := totalScore as real / totalDsDna as real;
      }
    }
  }
}

/**
 * `OligoBreakSolution`: one strand's chosen breaks. Breaks are named by the
 * global key of their node; the edges are copies of the strand's edge records
 * (`id` identifies the edge object). Covers `initialize`, `is_identical`,
 * `calculate_dsDNA_length`, `calculate_self_penalty` and the temporary
 * neighbour constraints.
 */
module Solutions {
  import opened Options
  import opened BreakEdges

  /** A strand's solution: breaks from start to final, the edge leaving each break, the path scores. */
  datatype Solution = Solution(breaks: seq<nat>, edges: seq<Option<Edge>>, scores: seq<int>, score: int)

  function Reverse<T>(s: seq<T>): (r: seq<T>)
    ensures |r| == |s|
    ensures forall i :: 0 <= i < |s| ==> r[i] == s[|s| - 1 - i]
  {
    if s == [] then [] else Reverse(s[1..]) + [s[0]]
  }

  /**
   * `OligoBreakSolution.initialize`: `break_paths` runs from the final break
   * back to the start; the solution lists nodes, edges and scores in the
   * opposite order.
   */
  function FromPaths(paths: seq<BreakPath>, score: int): (s: Solution)
    ensures |s.breaks| == |s.edges| == |s.scores| == |paths|
  {
    Solution(
      Reverse(seq(|paths|, i requires 0 <= i < |paths| => paths[i].node)),
      Reverse(seq(|paths|, i requires 0 <= i < |paths| => paths[i].edge)),
      Reverse(seq(|paths|, i requires 0 <= i < |paths| => paths[i].score)),
      score)
  }

  /**
   * The solution starts at the node the path ends on and ends at the node it
   * starts from; the edge, node and score at position `i` of the solution
   * come from the same path step.
   */
  lemma FromPathsOrder(paths: seq<BreakPath>, score: int)
    requires |paths| > 0
    ensures FromPaths(paths, score).breaks[0] == paths[|paths| - 1].node
    ensures FromPaths(paths, score).breaks[|paths| - 1] == paths[0].node
    ensures FromPaths(paths, score).edges[|paths| - 1] == paths[0].edge
    ensures forall i :: 0 <= i < |paths| ==>
      BreakPath(FromPaths(paths, score).breaks[i], FromPaths(paths, score).edges[i],
                FromPaths(paths, score).scores[i]) == paths[|paths| - 1 - i]
    ensures FromPaths(paths, score).score == score
  {
  }

  /** Python's `s[:k]` for an integer `k` (negative counts from the end). */
  function Slice(s: seq<nat>, k: int): (r: seq<nat>)
    ensures |r| <= |s| && r == s[..|r|]
    ensures 0 <= k <= |s| ==> |r| == k
    ensures k > |s| ==> r == s
  {
    if k >= 0 then (if k <= |s| then s[..k] else s)
    else if |s| + k >= 0 then s[..|s| + k] else []
  }

  /**
   * `is_identical(self, other, max_index)`: compares the first `max_i`
   * breaks, where `max_i` is `len(self.breaks) - 1` unless `max_index` is
   * truthy (so 0 behaves like None). Unequal prefix lengths give False;
   * `None` stands for the IndexError raised when `max_i` exceeds both
   * (equally long) prefixes.
   */
  function IsIdentical(a: seq<nat>, b: seq<nat>, maxIndex: Option<int>): (r: Option<bool>)
  {
    var maxI := if maxIndex.Some? && maxIndex.value != 0 then maxIndex.value else |a| - 1;
    var ca := Slice(a, maxI);
    var cb := Slice(b, maxI);
    if |ca| != |cb| then Some(false)
    else if maxI > |ca| then None
    else if maxI < 0 then Some(true)
    else Some(ca == cb)
  }

  /** An explicit prefix length within `a` compares exactly the first `k` breaks. */
  lemma IsIdenticalPrefix(a: seq<nat>, b: seq<nat>, k: int)
    requires 1 <= k <= |a|
    ensures IsIdentical(a, b, Some(k)) == Some(|b| >= k && a[..k] == b[..k])
  {
    if |b| >= k && a[..k] != b[..k] {
      assert IsIdentical(a, b, Some(k)) == Some(false);
    }
  }

  /**
   * The default compares all but the last break of `a`, and a prefix of 0
   * means the default.
   */
  lemma IsIdenticalDefault(a: seq<nat>, b: seq<nat>)
    requires |a| >= 1
    ensures IsIdentical(a, b, Some(0)) == IsIdentical(a, b, None)
    ensures IsIdentical(a, b, None) == Some(|b| >= |a| - 1 && a[..|a| - 1] == b[..|a| - 1])
  {
    var k := |a| - 1;
    if |b| >= k {
      assert Slice(b, k) == b[..k];
    } else {
      assert |Slice(b, k)| < k;
    }
  }

  /** The IndexError happens exactly when the prefix is longer than `a` and `b` is as long as `a`. */
  lemma IsIdenticalIndexError(a: seq<nat>, b: seq<nat>, k: int)
    requires k > 0
    ensures IsIdentical(a, b, Some(k)).None? <==> k > |a| && |b| == |a|
  {
  }

  /** Every solution is identical to itself, under the default and under any prefix within it. */
  lemma IsIdenticalReflexive(a: seq<nat>, k: int)
    requires |a| >= 1 && 0 <= k <= |a|
    ensures IsIdentical(a, a, Some(k)) == Some(true)
    ensures IsIdentical(a, a, None) == Some(true)
  {
    IsIdenticalDefault(a, a);
    if k > 0 {
      IsIdenticalPrefix(a, a, k);
    }
  }

  /** With an explicit prefix both solutions reach, the comparison is symmetric. */
  lemma IsIdenticalSymmetric(a: seq<nat>, b: seq<nat>, k: int)
    requires 1 <= k <= |a| && k <= |b|
    ensures IsIdentical(a, b, Some(k)) == IsIdentical(b, a, Some(k))
  {
    IsIdenticalPrefix(a, b, k);
    IsIdenticalPrefix(b, a, k);
  }

  /**
   * Under the default prefix a solution is identical to any longer one that
   * shares all its breaks but the last, so two different paths can count
   * as the same; the default comparison is therefore not symmetric.
   */
  lemma IsIdenticalDefaultPrefixOnly(a: seq<nat>, rest: seq<nat>)
    requires |a| >= 1
    ensures IsIdentical(a, a[..|a| - 1] + rest, None) == Some(true)
  {
    IsIdenticalDefault(a, a[..|a| - 1] + rest);
    assert (a[..|a| - 1] + rest)[..|a| - 1] == a[..|a| - 1];
  }

  lemma IsIdenticalDefaultAsymmetric()
    ensures IsIdentical([1, 2], [1, 3, 4], None) == Some(true)
    ensures IsIdentical([1, 3, 4], [1, 2], None) == Some(false)
  {
    IsIdenticalDefault([1, 2], [1, 3, 4]);
    IsIdenticalDefault([1, 3, 4], [1, 2]);
    var a: seq<nat> := [1, 3, 4];
    var b: seq<nat> := [1, 2];
    assert a[..2][1] != b[..2][1];
  }

  function SumNat(xs: seq<nat>): nat {
    if xs == [] then 0 else SumNat(xs[..|xs| - 1]) + xs[|xs| - 1]
  }

  /** The duplex length an edge slot contributes: its segment lengths, or nothing for None. */
  function EdgeDsDna(e: Option<Edge>): nat {
    if e.Some? then SumNat(e.value.dsLengths) else 0
  }

  /** Sum of the duplex segment lengths over the edges that are present. */
  function DsDnaLength(edges: seq<Option<Edge>>): nat {
    if edges == [] then 0 else DsDnaLength(edges[..|edges| - 1]) + EdgeDsDna(edges[|edges| - 1])
  }

  /** The total splits over concatenation, so None slots and edge order do not matter. */
  lemma {:induction false} DsDnaLengthAppend(x: seq<Option<Edge>>, y: seq<Option<Edge>>)
    ensures DsDnaLength(x + y) == DsDnaLength(x) + DsDnaLength(y)
    decreases |y|
  {
    if y == [] {
      assert x + y == x;
    } else {
      assert (x + y)[..|x + y| - 1] == x + y[..|y| - 1];
      DsDnaLengthAppend(x, y[..|y| - 1]);
    }
  }

  lemma DsDnaLengthSingle(e: Option<Edge>)
    ensures DsDnaLength([e]) == (if e.Some? then SumNat(e.value.dsLengths) else 0)
  {
    assert [e][..0] == [];
  }

  /** `calculate_dsDNA_length`. */
  method CalculateDsDnaLength(s: Solution) returns (total: nat)
    ensures total == DsDnaLength(s.edges)
  {
    total := 0;
    var i := 0;
    while i < |s.edges|
      invariant 0 <= i <= |s.edges|
      invariant total == DsDnaLength(s.edges[..i])
    {
      assert s.edges[..i + 1][..i] == s.edges[..i];
      var e := s.edges[i];
      if e.Some? {
        total := total + SumNat(e.value.dsLengths);
      }
      i := i + 1;
    }
    assert s.edges[..i] == s.edges;
  }

  /** Python's `breaks[:-1]`. */
  function AllButLast(s: seq<nat>): (r: seq<nat>)
    ensures |s| > 0 ==> r == s[..|s| - 1]
    ensures |s| == 0 ==> r == []
  {
    if |s| == 0 then [] else s[..|s| - 1]
  }

  /** A break whose neighbour break is one of `within`. */
  predicate Claims(b: nat, neighborOf: nat -> Option<nat>, within: seq<nat>) {
    neighborOf(b).Some? && neighborOf(b).value in within
  }

  /** How many of `bs` claim a neighbour in `within`. */
  function ClaimCount(bs: seq<nat>, neighborOf: nat -> Option<nat>, within: seq<nat>): nat {
    if bs == [] then 0
    else ClaimCount(bs[..|bs| - 1], neighborOf, within) + (if Claims(bs[|bs| - 1], neighborOf, within) then 1 else 0)
  }

  lemma {:induction false} ClaimCountBounds(bs: seq<nat>, neighborOf: nat -> Option<nat>, within: seq<nat>)
    ensures ClaimCount(bs, neighborOf, within) <= |bs|
    ensures ClaimCount(bs, neighborOf, within) == 0 <==> forall i :: 0 <= i < |bs| ==> !Claims(bs[i], neighborOf, within)
  {
    if bs != [] {
      var init := bs[..|bs| - 1];
      ClaimCountBounds(init, neighborOf, within);
      assert forall i :: 0 <= i < |init| ==> init[i] == bs[i];
    }
  }

  /** `calculate_self_penalty`: half (rounded down) the breaks but the last whose neighbour is on the same path. */
  function SelfPenalty(s: Solution, neighborOf: nat -> Option<nat>): nat {
    ClaimCount(AllButLast(s.breaks), neighborOf, s.breaks) / 2
  }

  /**
   * The self penalty is at most half the number of cut breaks, and is 0
   * when no cut break's neighbour lies on the path.
   */
  lemma SelfPenaltyBounds(s: Solution, neighborOf: nat -> Option<nat>)
    requires |s.breaks| >= 1
    ensures SelfPenalty(s, neighborOf) <= (|s.breaks| - 1) / 2
    ensures (forall i :: 0 <= i < |s.breaks| - 1 ==> !Claims(s.breaks[i], neighborOf, s.breaks))
      ==> SelfPenalty(s, neighborOf) == 0
  {
    ClaimCountBounds(AllButLast(s.breaks), neighborOf, s.breaks);
  }

  method CalculateSelfPenalty(s: Solution, neighborOf: nat -> Option<nat>) returns (penalty: nat)
    ensures penalty == SelfPenalty(s, neighborOf)
  {
    var cut := AllButLast(s.breaks);
    var count := 0;
    var i := 0;
    while i < |cut|
      invariant 0 <= i <= |cut|
      invariant count == ClaimCount(cut[..i], neighborOf, s.breaks)
    {
      assert cut[..i + 1][..i] == cut[..i];
      var nb := neighborOf(cut[i]);
      if nb.Some? && nb.value in s.breaks {
        count := count + 1;
      }
      i := i + 1;
    }
    assert cut[..i] == cut;
    penalty := count / 2;
  }

  /** The neighbour keys of the cut breaks, in order. */
  function Neighbors(bs: seq<nat>, neighborOf: nat -> Option<nat>): (ks: seq<nat>)
    ensures forall k :: k in ks <==> exists b :: b in bs && neighborOf(b) == Some(k)
  {
    if bs == [] then []
    else
      var rest := Neighbors(bs[..|bs| - 1], neighborOf);
      assert forall b :: b in bs <==> b in bs[..|bs| - 1] || b == bs[|bs| - 1];
      match neighborOf(bs[|bs| - 1])
      case None => rest
      case Some(k) => rest + [k]
  }

  /** `dont_break_temp` after setting it at every key of `ks`. */
  function SetTemp(flags: seq<bool>, ks: seq<nat>): (r: seq<bool>)
    ensures |r| == |flags|
  {
    seq(|flags|, k requires 0 <= k < |flags| => flags[k] || k in ks)
  }

  /** `dont_break_temp` after clearing it at every key of `ks`. */
  function ClearTemp(flags: seq<bool>, ks: seq<nat>): (r: seq<bool>)
    ensures |r| == |flags|
  {
    seq(|flags|, k requires 0 <= k < |flags| => flags[k] && k !in ks)
  }

  /**
   * Clearing undoes setting: it gives the same flags as clearing alone, and
   * the original flags when none of the keys was set before.
   */
  lemma ClearAfterSet(flags: seq<bool>, ks: seq<nat>)
    ensures ClearTemp(SetTemp(flags, ks), ks) == ClearTemp(flags, ks)
    ensures (forall k :: k in ks && k < |flags| ==> !flags[k]) ==> ClearTemp(SetTemp(flags, ks), ks) == flags
    ensures SetTemp(SetTemp(flags, ks), ks) == SetTemp(flags, ks)
  {
  }

  /** The per-node flags shared by all strands, indexed by node key. */
  class NodeTable {
    var dontBreak: seq<bool>
    var dontBreakTemp: seq<bool>

    constructor(dontBreak: seq<bool>)
      ensures this.dontBreak == dontBreak
      ensures dontBreakTemp == seq(|dontBreak|, _ => false)
    {
      this.dontBreak := dontBreak;
      this.dontBreakTemp := seq(|dontBreak|, _ => false);
    }

    /** The two flags of node `k`. */
    function Flags(k: nat): NodeFlags
      reads this
      requires k < |dontBreak| && k < |dontBreakTemp|
    {
      NodeFlags(dontBreak[k], dontBreakTemp[k])
    }

    /** `apply_temp_neighbor_constraints`: forbid breaking at the neighbours of the cut breaks. */
    method ApplyTempNeighborConstraints(s: Solution, neighborOf: nat -> Option<nat>)
      requires forall b :: b in AllButLast(s.breaks) && neighborOf(b).Some? ==> neighborOf(b).value < |dontBreakTemp|
      modifies this
      ensures dontBreakTemp == SetTemp(old(dontBreakTemp), Neighbors(AllButLast(s.breaks), neighborOf))
      ensures dontBreak == old(dontBreak)
    {
      var cut := AllButLast(s.breaks);
      var i := 0;
      while i < |cut|
        invariant 0 <= i <= |cut| && dontBreak == old(dontBreak)
        invariant dontBreakTemp == SetTemp(old(dontBreakTemp), Neighbors(cut[..i], neighborOf))
      {
        assert cut[..i + 1][..i] == cut[..i];
        var nb := neighborOf(cut[i]);
        if nb.Some? {
          assert cut[i] in cut;
          dontBreakTemp := dontBreakTemp[nb.value := true];
        }
        i := i + 1;
      }
      assert cut[..i] == cut;
    }

    /** `reset_temp_neighbor_constraints`: clear the flag again at the same neighbours. */
    method ResetTempNeighborConstraints(s: Solution, neighborOf: nat -> Option<nat>)
      requires forall b :: b in AllButLast(s.breaks) && neighborOf(b).Some? ==> neighborOf(b).value < |dontBreakTemp|
      modifies this
      ensures dontBreakTemp == ClearTemp(old(dontBreakTemp), Neighbors(AllButLast(s.breaks), neighborOf))
      ensures dontBreak == old(dontBreak)
    {
      var cut := AllButLast(s.breaks);
      var i := 0;
      while i < |cut|
        invariant 0 <= i <= |cut| && dontBreak == old(dontBreak)
        invariant dontBreakTemp == ClearTemp(old(dontBreakTemp), Neighbors(cut[..i], neighborOf))
      {
        assert cut[..i + 1][..i] == cut[..i];
        var nb := neighborOf(cut[i]);
        if nb.Some? {
          assert cut[i] in cut;
          dontBreakTemp := dontBreakTemp[nb.value := false];
        }
        i := i + 1;
      }
      assert cut[..i] == cut;
    }
  }
}

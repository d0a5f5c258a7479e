/**
 * The scaffold-offset sweep of `AutoBreak`: which sequence offsets are tried,
 * which complete solutions are kept per offset, which one is best, and how
 * the kept offsets are corrected to the scaffold's true start position.
 */
module Sweep {
  import opened Options
  import opened Groups

  /**
   * Python's `a % n` for a positive modulus: the remainder in [0, n), which
   * is Dafny's Euclidean `%` as well.
   */
  function PyMod(a: int, n: int): (r: int)
    requires n > 0
    ensures 0 <= r < n
  {
    a % n
  }

  /** A remainder in [0, n) that differs from `a` by a multiple of `n` is `a % n`. */
  lemma ModUnique(a: int, q: int, r: int, n: int)
    requires n > 0 && 0 <= r < n && a == q * n + r
    ensures a % n == r
  {
    var q' := a / n;
    assert a == q' * n + a % n;
    if q' != q {
      MulGap(q', q, n);
    }
  }

  /** Two different multiples of `n` are at least `n` apart. */
  lemma MulGap(x: int, y: int, n: int)
    requires n > 0 && x != y
    ensures x * n - y * n >= n || y * n - x * n >= n
  {
    if x > y {
      MulAtLeast(x - y, n);
      assert x * n - y * n == (x - y) * n;
    } else {
      MulAtLeast(y - x, n);
      assert y * n - x * n == (y - x) * n;
    }
  }

  lemma {:induction false} MulAtLeast(d: int, n: int)
    requires d >= 1 && n > 0
    ensures d * n >= n
    decreases d
  {
    if d > 1 {
      MulAtLeast(d - 1, n);
      assert d * n == (d - 1) * n + n;
    }
  }

  /** Shifting by a multiple of `n` does not change the remainder. */
  lemma ModShift(a: int, q: int, n: int)
    requires n > 0
    ensures (a + q * n) % n == a % n
  {
    assert a == (a / n) * n + a % n;
    assert a + q * n == (a / n + q) * n + a % n;
    ModUnique(a + q * n, a / n + q, a % n, n);
  }

  // ---------------------------------------------------------------------
  // permute_scaffold_sequence_autobreak
  // ---------------------------------------------------------------------

  /**
   * `final_itr`: one pass without permutation; with permutation, the length
   * of the scaffold sequence, capped at `nitr`.
   */
  function FinalIteration(permute: bool, sequenceLength: nat, nitr: int): (r: int)
    ensures !permute ==> r == 1
    ensures permute ==> r <= sequenceLength && r <= nitr && (r == sequenceLength || r == nitr)
  {
    if !permute then 1
    else if nitr < sequenceLength then nitr
    else sequenceLength
  }

  /** The offset tried at iteration `itr`: `(start + itr) % scaffold length`. */
  function OffsetAt(start: int, itr: nat, scaffoldLength: int): int
    requires scaffoldLength > 0
  {
    PyMod(start + itr, scaffoldLength)
  }

  /**
   * The offsets `permute_scaffold_sequence_autobreak` shifts the scaffold to,
   * in order (`range(0, final_itr)`, empty when `final_itr` is not positive).
   * Each iteration then runs the whole optimisation at that offset.
   */
  method PermuteOffsets(start: int, permute: bool, sequenceLength: nat, nitr: int, scaffoldLength: int)
    returns (visited: seq<int>)
    requires scaffoldLength > 0
    ensures var n := FinalIteration(permute, sequenceLength, nitr);
      |visited| == (if n < 0 then 0 else n)
    ensures forall i :: 0 <= i < |visited| ==> visited[i] == OffsetAt(start, i, scaffoldLength)
  {
    var finalItr := 1;
    if permute {
      finalItr := sequenceLength;
      if nitr < finalItr {
        finalItr := nitr;
      }
    }
    assert finalItr == FinalIteration(permute, sequenceLength, nitr);
    visited := [];
    var itr := 0;
    while itr < finalItr
      invariant 0 <= itr && (finalItr >= 0 ==> itr <= finalItr) && (finalItr < 0 ==> itr == 0)
      invariant |visited| == itr
      invariant forall i :: 0 <= i < itr ==> visited[i] == OffsetAt(start, i, scaffoldLength)
    {
      var currentOffset := PyMod(start + itr, scaffoldLength);
      visited := visited + [currentOffset];
      itr := itr + 1;
    }
  }

  /**
   * Every offset tried is a position on the scaffold, and without
   * permutation the only one is the start offset itself (reduced).
   */
  lemma OffsetsInRange(start: int, itr: nat, scaffoldLength: int)
    requires scaffoldLength > 0
    ensures 0 <= OffsetAt(start, itr, scaffoldLength) < scaffoldLength
    ensures OffsetAt(start, 0, scaffoldLength) == PyMod(start, scaffoldLength)
  {
  }

  /**
   * Within one turn around the scaffold no offset is tried twice, so no
   * complete solution is overwritten by a later iteration.
   */
  lemma {:induction false} OffsetsDistinct(start: int, i: nat, j: nat, scaffoldLength: int)
    requires scaffoldLength > 0 && i < j < scaffoldLength
    ensures OffsetAt(start, i, scaffoldLength) != OffsetAt(start, j, scaffoldLength)
  {
    var n := scaffoldLength;
    var a, b := start + i, start + j;
    if a % n == b % n {
      assert a == (a / n) * n + a % n;
      assert b == (b / n) * n + b % n;
      if a / n != b / n {
        MulGap(a / n, b / n, n);
      }
    }
  }

  /**
   * A full sweep (as many iterations as the scaffold is long) tries every
   * position of the scaffold.
   */
  lemma {:induction false} OffsetsCover(start: int, o: int, scaffoldLength: int)
    requires scaffoldLength > 0 && 0 <= o < scaffoldLength
    ensures exists itr: nat :: itr < scaffoldLength && OffsetAt(start, itr, scaffoldLength) == o
  {
    var n := scaffoldLength;
    var itr: nat := PyMod(o - start, n);
    assert o - start == ((o - start) / n) * n + itr;
    assert start + itr == o + (-((o - start) / n)) * n;
    ModShift(o, -((o - start) / n), n);
    ModUnique(o, 0, o, n);
    assert OffsetAt(start, itr, n) == o;
  }

  // ---------------------------------------------------------------------
  // correct_complete_solution_offsets
  // ---------------------------------------------------------------------

  /** `(sequence_offset + offset_difference) % scaffold length`. */
  function CorrectedOffset(offset: int, difference: int, scaffoldLength: int): int
    requires scaffoldLength > 0
  {
    PyMod(offset + difference, scaffoldLength)
  }

  /**
   * Correcting is a rotation of the scaffold: it lands on the scaffold, and
   * correcting back by the opposite difference returns the original offset
   * (reduced to the scaffold).
   */
  lemma CorrectedRoundTrip(offset: int, difference: int, scaffoldLength: int)
    requires scaffoldLength > 0
    ensures 0 <= CorrectedOffset(offset, difference, scaffoldLength) < scaffoldLength
    ensures CorrectedOffset(CorrectedOffset(offset, difference, scaffoldLength), -difference, scaffoldLength)
      == PyMod(offset, scaffoldLength)
  {
    var n := scaffoldLength;
    var a := offset + difference;
    assert a == (a / n) * n + a % n;
    assert a % n - difference == offset + (-(a / n)) * n;
    ModShift(offset, -(a / n), n);
  }

  // ---------------------------------------------------------------------
  // The kept complete solutions
  // ---------------------------------------------------------------------

  /** The complete-solution store of `AutoBreak`. */
  class OffsetSweep {
    /** `complete_solutions`, keyed by sequence offset. */
    var completeSolutions: map<int, CompleteSolution>
    /** The keys of `complete_solutions` in insertion (iteration) order. */
    var offsets: seq<int>
    var bestComplete: Option<CompleteSolution>

    ghost predicate Valid()
      reads this
    {
      Keyed(offsets, completeSolutions)
    }

    constructor()
      ensures Valid() && completeSolutions == map[] && offsets == [] && bestComplete == None
    {
      completeSolutions := map[];
      offsets := [];
      bestComplete := None;
    }

    /**
     * `combine_group_solutions`: build the complete solution of the groups'
     * best solutions at this offset, total it, and keep it under its offset
     * (replacing what was kept there) only when it is complete. `raised`
     * reports the division by zero of a zero total duplex length, which
     * leaves the store as it was.
     */
    method CombineGroupSolutions(offset: int, order: seq<nat>, groups: map<nat, Option<GroupTotals>>)
      returns (raised: bool)
      requires Valid() && Keyed(order, groups)
      modifies this
      ensures Valid() && bestComplete == old(bestComplete)
      ensures raised <==> TotalDsDna(order, groups) == 0
      ensures if !raised && AllComplete(order, groups) then
          offset in completeSolutions
          && fresh(completeSolutions[offset])
          && completeSolutions == old(completeSolutions)[offset := completeSolutions[offset]]
          && offsets == (if offset in old(completeSolutions) then old(offsets) else old(offsets) + [offset])
          && completeSolutions[offset].sequenceOffset == offset
          && completeSolutions[offset].totalScore == TotalScore(order, groups)
          && completeSolutions[offset].totalPenalty == TotalPenalty(order, groups)
          && completeSolutions[offset].totalDsDna == TotalDsDna(order, groups)
          && completeSolutions[offset].complete
        else
          completeSolutions == old(completeSolutions) && offsets == old(offsets)
    {
      var solution := new CompleteSolution(offset, order, groups);
      raised := solution.CalculateTotalScore();
      if raised {
        return;
      }
      if solution.complete {
        if offset !in completeSolutions {
          offsets := offsets + [offset];
        }
        completeSolutions := completeSolutions[offset := solution];
      }
    }

    /**
     * `compare_complete_solutions`: sort the kept solutions by total score,
     * highest first and keeping iteration order among equal scores, and take
     * the first as the best. With nothing kept the best stays as it was.
     */
    method CompareCompleteSolutions()
      requires Valid()
      modifies this`bestComplete
      ensures Valid()
      ensures completeSolutions == map[] ==> bestComplete == old(bestComplete)
      ensures completeSolutions != map[] ==>
        exists i :: 0 <= i < |offsets| && bestComplete == Some(completeSolutions[offsets[i]])
          && (forall j :: 0 <= j < |offsets| ==> completeSolutions[offsets[j]].totalScore <= completeSolutions[offsets[i]].totalScore)
          && (forall j :: 0 <= j < i ==> completeSolutions[offsets[j]].totalScore < completeSolutions[offsets[i]].totalScore)
    {
      if |offsets| == 0 {
        assert completeSolutions.Keys == {};
        assert completeSolutions == map[];
        return;
      }
      var best := 0;
      var i := 1;
      while i < |offsets|
        invariant 1 <= i <= |offsets| && best < i
        invariant forall j :: 0 <= j < i ==> completeSolutions[offsets[j]].totalScore <= completeSolutions[offsets[best]].totalScore
        invariant forall j :: 0 <= j < best ==> completeSolutions[offsets[j]].totalScore < completeSolutions[offsets[best]].totalScore
      {
        if completeSolutions[offsets[i]].totalScore > completeSolutions[offsets[best]].totalScore {
          best := i;
        }
        i := i + 1;
      }
      bestComplete := Some(completeSolutions[offsets[best]]);
    }

    /**
     * `correct_complete_solution_offsets`: every kept solution's corrected
     * offset becomes its sequence offset plus the start-position difference,
     * reduced to the scaffold; nothing else of the kept solutions changes.
     */
    method CorrectCompleteSolutionOffsets(difference: int, scaffoldLength: int)
      requires Valid() && scaffoldLength > 0
      modifies completeSolutions.Values
      ensures forall k :: k in completeSolutions ==>
        completeSolutions[k].correctedOffset == CorrectedOffset(completeSolutions[k].sequenceOffset, difference, scaffoldLength)
      ensures forall c :: c in completeSolutions.Values ==>
        c.totalScore == old(c.totalScore) && c.totalPenalty == old(c.totalPenalty)
        && c.totalDsDna == old(c.totalDsDna) && c.complete == old(c.complete) && c.totalNormScore == old(c.totalNormScore)
    {
      var i := 0;
      while i < |offsets|
        invariant 0 <= i <= |offsets|
        invariant forall j :: 0 <= j < i ==>
          completeSolutions[offsets[j]].correctedOffset == CorrectedOffset(completeSolutions[offsets[j]].sequenceOffset, difference, scaffoldLength)
        invariant forall c :: c in completeSolutions.Values ==>
          c.totalScore == old(c.totalScore) && c.totalPenalty == old(c.totalPenalty)
          && c.totalDsDna == old(c.totalDsDna) && c.complete == old(c.complete) && c.totalNormScore == old(c.totalNormScore)
      {
        var solution := completeSolutions[offsets[i]];
        solution.correctedOffset := PyMod(solution.sequenceOffset + difference, scaffoldLength);
        i := i + 1;
      }
      forall k | k in completeSolutions
        ensures completeSolutions[k].correctedOffset == CorrectedOffset(completeSolutions[k].sequenceOffset, difference, scaffoldLength)
      {
        var j :| 0 <= j < |offsets| && offsets[j] == k;
      }
    }
  }
}

/**
 * The structural (non-thermodynamic) fields that `BreakEdge.update_connection`
 * derives from the single-stranded segments lying between two break nodes:
 * the duplex segments left after stripping whitespace, their lengths, the
 * longest one, the has-14 / has-16 indicators, the structure term and the
 * validity of the edge.
 */
module Segments {

  /**
   * Characters Python's `str.strip()` removes: those `str.isspace()`
   * accepts, the ASCII whitespace, the separators U+001C..U+001F and the
   * Unicode spaces and line separators.
   */
  predicate IsSpace(c: char) {
    || ('\U{0009}' <= c <= '\U{000D}') || ('\U{001C}' <= c <= '\U{0020}')
    || c == '\U{0085}' || c == '\U{00A0}' || c == '\U{1680}'
    || ('\U{2000}' <= c <= '\U{200A}') || c == '\U{2028}' || c == '\U{2029}'
    || c == '\U{202F}' || c == '\U{205F}' || c == '\U{3000}'
  }

  predicate AllSpace(s: string) {
    forall i :: 0 <= i < |s| ==> IsSpace(s[i])
  }

  /** Drops leading whitespace. */
  function StripLeft(s: string): (r: string)
    ensures |r| <= |s| && r == s[|s| - |r|..]
    ensures r == [] || !IsSpace(r[0])
    ensures forall i :: 0 <= i < |s| - |r| ==> IsSpace(s[i])
  {
    if s == [] || !IsSpace(s[0]) then s else StripLeft(s[1..])
  }

  /** Drops trailing whitespace. */
  function StripRight(s: string): (r: string)
    ensures |r| <= |s| && r == s[..|r|]
    ensures r == [] || !IsSpace(r[|r| - 1])
    ensures forall i :: |r| <= i < |s| ==> IsSpace(s[i])
  {
    if s == [] || !IsSpace(s[|s| - 1]) then s else StripRight(s[..|s| - 1])
  }

  /** Python's `s.strip()`. */
  function Strip(s: string): string {
    StripRight(StripLeft(s))
  }

  /** A string strips to nothing exactly when it is whitespace only. */
  lemma StripEmptyIff(s: string)
    ensures Strip(s) == [] <==> AllSpace(s)
  {
    var l := StripLeft(s);
    if Strip(s) == [] {
      assert l == [];
    } else {
      var r := Strip(s);
      assert !IsSpace(r[0]);
      assert r[0] == l[0] == s[|s| - |l|];
    }
  }

  /** A stripped string neither starts nor ends with whitespace. */
  lemma StripTrimmed(s: string)
    ensures Strip(s) == [] || (!IsSpace(Strip(s)[0]) && !IsSpace(Strip(s)[|Strip(s)| - 1]))
  {
    var l := StripLeft(s);
    var r := StripRight(l);
    if r != [] {
      assert r == l[..|r|];
      assert r[0] == l[0];
    }
  }

  /** The number of segments that are not whitespace only. */
  function NonBlankCount(ss: seq<string>): (n: nat)
    ensures n <= |ss|
  {
    if ss == [] then 0 else (if AllSpace(ss[0]) then 0 else 1) + NonBlankCount(ss[1..])
  }

  /**
   * `dsDNA_seq_list`: each segment stripped, whitespace-only segments dropped,
   * order kept: one duplex segment per non-blank segment.
   */
  function DuplexSegments(ss: seq<string>): (ds: seq<string>)
    ensures |ds| <= |ss|
    ensures forall k :: 0 <= k < |ds| ==> ds[k] != []
    ensures |ds| == NonBlankCount(ss)
  {
    if ss == [] then []
    else
      var t := Strip(ss[0]);
      StripEmptyIff(ss[0]);
      if |t| > 0 then [t] + DuplexSegments(ss[1..]) else DuplexSegments(ss[1..])
  }

  /** The images under `f` of the elements `keep` accepts, in order. */
  function FilterMap<T, U>(xs: seq<T>, keep: T -> bool, f: T -> U): seq<U> {
    if xs == [] then []
    else if keep(xs[0]) then [f(xs[0])] + FilterMap(xs[1..], keep, f)
    else FilterMap(xs[1..], keep, f)
  }

  /** The number of elements `keep` accepts. */
  function CountKept<T>(xs: seq<T>, keep: T -> bool): nat {
    if xs == [] then 0 else (if keep(xs[0]) then 1 else 0) + CountKept(xs[1..], keep)
  }

  /** An accepted element `xs[j]` is mapped to the position counting the accepted elements before it. */
  lemma {:induction false} FilterMapPlaced<T, U>(xs: seq<T>, keep: T -> bool, f: T -> U, j: nat)
    requires j < |xs| && keep(xs[j])
    ensures CountKept(xs[..j], keep) < |FilterMap(xs, keep, f)|
    ensures FilterMap(xs, keep, f)[CountKept(xs[..j], keep)] == f(xs[j])
  {
    if j > 0 {
      assert xs[j] == xs[1..][j - 1];
      FilterMapPlaced(xs[1..], keep, f, j - 1);
      assert xs[..j][0] == xs[0] && xs[..j][1..] == xs[1..][..j - 1];
    } else {
      assert xs[..0] == [];
    }
  }

  predicate NonBlank(s: string) {
    !AllSpace(s)
  }

  /** The duplex segments are the stripped non-blank segments, and they are counted by `NonBlankCount`. */
  lemma {:induction false} DuplexSegmentsFilter(ss: seq<string>)
    ensures DuplexSegments(ss) == FilterMap(ss, NonBlank, Strip)
    ensures NonBlankCount(ss) == CountKept(ss, NonBlank)
  {
    if ss != [] {
      StripEmptyIff(ss[0]);
      DuplexSegmentsFilter(ss[1..]);
    }
  }

  /**
   * Where each non-blank segment goes: segment `j`, stripped, is the duplex
   * segment right after those of the non-blank segments before it. With the
   * count above this fixes the whole list, in order.
   */
  lemma DuplexSegmentsPlaced(ss: seq<string>, j: nat)
    requires j < |ss| && !AllSpace(ss[j])
    ensures NonBlankCount(ss[..j]) < |DuplexSegments(ss)|
    ensures DuplexSegments(ss)[NonBlankCount(ss[..j])] == Strip(ss[j])
  {
    DuplexSegmentsFilter(ss);
    DuplexSegmentsFilter(ss[..j]);
    FilterMapPlaced(ss, NonBlank, Strip, j);
  }

  /** No segment is counted exactly when every segment is whitespace only. */
  lemma {:induction false} NonBlankCountZero(ss: seq<string>)
    ensures NonBlankCount(ss) == 0 <==> forall k :: 0 <= k < |ss| ==> AllSpace(ss[k])
  {
    if ss != [] {
      NonBlankCountZero(ss[1..]);
      assert forall k :: 1 <= k < |ss| ==> ss[k] == ss[1..][k - 1];
    }
  }

  /** A duplex segment remains exactly when some segment is not whitespace only. */
  lemma DuplexSegmentsEmptyIff(ss: seq<string>)
    ensures DuplexSegments(ss) == [] <==> forall k :: 0 <= k < |ss| ==> AllSpace(ss[k])
  {
    NonBlankCountZero(ss);
  }

  /** `dsDNA_length_list`. */
  function Lengths(ds: seq<string>): (ls: seq<nat>)
    ensures |ls| == |ds|
    ensures forall k :: 0 <= k < |ds| ==> ls[k] == |ds[k]|
  {
    if ds == [] then [] else [|ds[0]|] + Lengths(ds[1..])
  }

  /** `edge_maxseq`: the longest duplex segment, or 0 when there is none. */
  function MaxSeq(ls: seq<nat>): (m: nat)
    ensures forall k :: 0 <= k < |ls| ==> ls[k] <= m
    ensures ls == [] ==> m == 0
    ensures ls != [] ==> exists k :: 0 <= k < |ls| && ls[k] == m
  {
    if ls == [] then 0
    else
      var rest := MaxSeq(ls[1..]);
      assert forall k :: 1 <= k < |ls| ==> ls[k] == ls[1..][k - 1];
      if ls[0] >= rest then ls[0] else rest
  }

  /** The number of segment lengths at or above `bound` (`np.sum(lengths >= bound)`). */
  function CountAtLeast(ls: seq<nat>, bound: nat): (c: nat)
    ensures c <= |ls|
  {
    if ls == [] then 0 else (if ls[0] >= bound then 1 else 0) + CountAtLeast(ls[1..], bound)
  }

  lemma {:induction false} CountAtLeastPositive(ls: seq<nat>, bound: nat)
    ensures CountAtLeast(ls, bound) > 0 <==> exists k :: 0 <= k < |ls| && ls[k] >= bound
  {
    if ls != [] {
      CountAtLeastPositive(ls[1..], bound);
      assert forall k :: 1 <= k < |ls| ==> ls[k] == ls[1..][k - 1];
      if CountAtLeast(ls[1..], bound) > 0 {
        var k :| 0 <= k < |ls[1..]| && ls[1..][k] >= bound;
        assert ls[k + 1] >= bound;
      }
    }
  }

  /** The structural profile of one edge, as `update_connection` records it. */
  datatype Profile = Profile(
    dsLengths: seq<nat>,  // dsDNA_length_list
    maxSeq: nat,          // edge_maxseq
    has14: nat,           // edge_has14 (0 or 1)
    has16: nat,           // edge_has16 (0 or 1)
    structure: nat,       // edge_structure = (number of duplex segments)^2
    valid: bool)          // false when no duplex segment remains

  function Indicator(b: bool): nat { if b then 1 else 0 }

  function ProfileOf(ss: seq<string>): Profile {
    var ls := Lengths(DuplexSegments(ss));
    Profile(ls, MaxSeq(ls), Indicator(CountAtLeast(ls, 14) > 0),
            Indicator(CountAtLeast(ls, 16) > 0), |ls| * |ls|, |ls| != 0)
  }

  /**
   * What the profile of a segment list means: its lengths are those of the
   * non-blank stripped segments; the indicators say whether some segment
   * reaches 14 / 16 nucleotides; the edge is invalid exactly when every
   * segment is blank, and then `maxseq` and `structure` are 0; `structure`
   * is the square of the number of non-blank segments.
   */
  lemma ProfileMeaning(ss: seq<string>)
    ensures ProfileOf(ss).dsLengths == Lengths(DuplexSegments(ss))
    ensures ProfileOf(ss).has14 == 1 <==> exists k :: 0 <= k < |ProfileOf(ss).dsLengths| && ProfileOf(ss).dsLengths[k] >= 14
    ensures ProfileOf(ss).has16 == 1 <==> exists k :: 0 <= k < |ProfileOf(ss).dsLengths| && ProfileOf(ss).dsLengths[k] >= 16
    ensures !ProfileOf(ss).valid <==> forall k :: 0 <= k < |ss| ==> AllSpace(ss[k])
    ensures !ProfileOf(ss).valid ==> ProfileOf(ss).maxSeq == 0 && ProfileOf(ss).structure == 0
    ensures ProfileOf(ss).has16 == 1 ==> ProfileOf(ss).has14 == 1
    ensures ProfileOf(ss).has14 == 1 <==> ProfileOf(ss).maxSeq >= 14
    ensures ProfileOf(ss).structure == NonBlankCount(ss) * NonBlankCount(ss)
  {
    var ls := Lengths(DuplexSegments(ss));
    CountAtLeastPositive(ls, 14);
    CountAtLeastPositive(ls, 16);
    DuplexSegmentsEmptyIff(ss);
  }
}

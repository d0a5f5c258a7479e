/**
 * Break edges and the small node-level predicates the search relies on:
 * `BreakEdge.is_valid`, `BreakNode.get_break_distance`,
 * `get_break_order_difference` and `is_break_edge_possible`, and the
 * `BreakPath` triple.
 */
module BreakEdges {
  import opened Options

  /**
   * A directed edge between two break nodes of one strand (node indices are
   * local to the strand; `id` is the edge's index in the strand's edge list
   * and stands for the edge object's identity). `weight` is the value the
   * scoring function gave it; `dsLengths` the duplex segment lengths.
   */
  datatype Edge = Edge(
    id: nat, src: nat, dst: nat, length: int, weight: int,
    valid: bool, active: bool, isLoop: bool, dsLengths: seq<nat>)

  /** The permission flags of one break node. */
  datatype NodeFlags = NodeFlags(dontBreak: bool, dontBreakTemp: bool)

  /** `BreakEdge.is_valid`: geometrically valid, active, and neither endpoint forbidden. */
  predicate IsValid(e: Edge, from: NodeFlags, to: NodeFlags) {
    e.valid && e.active
    && !from.dontBreak && !to.dontBreak && !from.dontBreakTemp && !to.dontBreakTemp
  }

  /**
   * Switching an edge off makes it unusable whatever the flags, and switching
   * it back on restores exactly its earlier validity when it was on before.
   */
  lemma ActiveToggle(e: Edge, from: NodeFlags, to: NodeFlags)
    ensures !IsValid(e.(active := false), from, to)
    ensures e.active ==> IsValid(e.(active := false).(active := true), from, to) == IsValid(e, from, to)
    ensures IsValid(e, from, to) ==> !from.dontBreak && !from.dontBreakTemp && !to.dontBreak && !to.dontBreakTemp
  {
  }

  /**
   * `get_break_distance`: the difference of the two nodes' positions along
   * the strand, plus the strand length when the strand is circular and the
   * difference is not positive.
   */
  function BreakDistance(fromDistance: int, toDistance: int, circular: bool, oligoLength: int): (d: int)
  {
    var raw := toDistance - fromDistance;
    if raw <= 0 && circular then raw + oligoLength else raw
  }

  /**
   * On a circular strand whose positions lie in [0, length) every distance
   * lies in (0, length], and a node's distance to itself is the full length.
   * On a linear strand it is the plain difference.
   */
  lemma BreakDistanceRange(a: int, b: int, circular: bool, len: int)
    requires circular && 0 <= a < len && 0 <= b < len
    ensures 0 < BreakDistance(a, b, circular, len) <= len
    ensures BreakDistance(a, a, circular, len) == len
    ensures BreakDistance(a, b, circular, len) == len <==> a == b
  {
  }

  lemma BreakDistanceLinear(a: int, b: int, len: int)
    ensures BreakDistance(a, b, false, len) == b - a
  {
  }

  /** `get_break_order_difference`. */
  function OrderDifference(fromOrder: int, toOrder: int): int {
    toOrder - fromOrder
  }

  /**
   * `is_break_edge_possible`: a positive order difference, or a nonzero one
   * equal to minus the origin's order id.
   */
  predicate IsBreakEdgePossible(fromOrder: int, toOrder: int) {
    var diff := OrderDifference(fromOrder, toOrder);
    diff > 0 || (diff != 0 && diff == -fromOrder)
  }

  /**
   * An edge may be followed exactly when it moves forward in the traversal
   * order, or when it jumps back to the order-0 node from any other node.
   * In particular no node may step to itself.
   */
  lemma {:induction false} BreakEdgePossibleIff(fromOrder: int, toOrder: int)
    ensures IsBreakEdgePossible(fromOrder, toOrder) <==> toOrder > fromOrder || (toOrder == 0 && fromOrder != 0)
    ensures !IsBreakEdgePossible(fromOrder, fromOrder)
  {
  }

  /** One step of a reconstructed path: node (global key), the edge that reached it, its score. */
  datatype BreakPath = BreakPath(node: nat, edge: Option<Edge>, score: int)

}

/**
 * The best-path search over one strand's break graph: `BreakNode`'s
 * `get_valid_edges`, `get_shortest_path`, `traverse_best_path`,
 * `reset_break_path` and `get_k_shortest_paths` (policy "best").
 *
 * The nodes of the strand are numbered 0..n-1; the per-node search state
 * (`score`, `best_path_node`, `best_path_nodes`, `visited`) is held in
 * sequences indexed by node. Edges are identified by their index in `edges`;
 * `best_path_nodes` and solutions name nodes by their global key.
 *
 * The methods of `BreakGraph` work on the object's fields as the source does;
 * each is proved equal to a function of the edge list and the search state
 * (`Step`, `ExpandF`, `RunF`, `LoopF`, `SearchF`, `Offs`, `Searches`, `KLoop`,
 * `KBest`), and the properties are proved about those functions.
 */
module PathSearch {
  import opened Options
  import opened BreakEdges
  import opened Solutions

  /** A `BreakPath` as stored in `best_path_node`: predecessor node, edge taken, score. */
  datatype Pred = Pred(node: nat, edge: nat, score: int)

  /** The search fields of every node: `score`, `best_path_node`, `best_path_nodes` (as keys) and `visited`. */
  datatype SearchState = SearchState(score: seq<int>, pred: seq<Option<Pred>>, pathNodes: seq<seq<nat>>, visited: seq<bool>)

  /** Number of unvisited nodes. */
  function Unvisited(vis: seq<bool>): nat {
    if vis == [] then 0 else Unvisited(vis[..|vis| - 1]) + (if vis[|vis| - 1] then 0 else 1)
  }

  lemma {:induction false} UnvisitedMark(vis: seq<bool>, v: nat)
    requires v < |vis|
    ensures Unvisited(vis[v := true]) == Unvisited(vis) - (if vis[v] then 0 else 1)
    decreases |vis|
  {
    var last := |vis| - 1;
    assert vis[v := true][..last] == if v < last then vis[..last][v := true] else vis[..last];
    if v < last {
      UnvisitedMark(vis[..last], v);
    }
  }

  lemma PenaltyPositive(inf: int)
    requires inf > 0
    ensures inf * inf > 0
  {
    assert inf * inf >= inf by {
      var k := inf - 1;
      assert inf * inf == inf * k + inf;
    }
  }

  /** The first index of a maximal score: the head of the pool once sorted by descending score (the sort is stable). */
  function FirstMax(pool: seq<Solution>): (i: nat)
    requires |pool| > 0
    ensures i < |pool|
    ensures forall j :: 0 <= j < |pool| ==> pool[j].score <= pool[i].score
    ensures forall j :: 0 <= j < i ==> pool[j].score < pool[i].score
  {
    if |pool| == 1 then 0
    else
      var i := FirstMax(pool[..|pool| - 1]);
      assert forall j :: 0 <= j < |pool| - 1 ==> pool[..|pool| - 1][j] == pool[j];
      if pool[|pool| - 1].score > pool[i].score then |pool| - 1 else i
  }

  /** `list.pop(i)`. */
  function RemoveAt(pool: seq<Solution>, i: nat): (r: seq<Solution>)
    requires i < |pool|
    ensures |r| == |pool| - 1
    ensures multiset(r) + multiset{pool[i]} == multiset(pool)
    ensures forall x :: x in r ==> x in pool
  {
    assert pool == pool[..i] + [pool[i]] + pool[i + 1..];
    pool[..i] + pool[i + 1..]
  }

  /** Some accepted solution finds `cand` identical under its default prefix. */
  predicate Found(accepted: seq<Solution>, cand: Solution) {
    exists j :: 0 <= j < |accepted| && IsIdentical(accepted[j].breaks, cand.breaks, None) == Some(true)
  }

  /** `pool` with the search result `c` appended when a path was found that no accepted solution finds identical. */
  function Admit(pool: seq<Solution>, c: Option<Solution>, accepted: seq<Solution>): seq<Solution> {
    if c.Some? && !Found(accepted, c.value) then pool + [c.value] else pool
  }

  /** The duplicate check of `get_k_shortest_paths`. */
  method AlreadyFound(accepted: seq<Solution>, cand: Solution) returns (found: bool)
    ensures found <==> exists j :: 0 <= j < |accepted| && IsIdentical(accepted[j].breaks, cand.breaks, None) == Some(true)
  {
    var j := 0;
    while j < |accepted|
      invariant 0 <= j <= |accepted|
      invariant forall j' :: 0 <= j' < j ==> IsIdentical(accepted[j'].breaks, cand.breaks, None) != Some(true)
    {
      if IsIdentical(accepted[j].breaks, cand.breaks, None) == Some(true) {
        return true;
      }
      j := j + 1;
    }
    return false;
  }

  /**
   * What the `for i` loop of `get_k_shortest_paths` appends to the pool, in
   * order: the candidates found that no accepted solution finds identical.
   */
  function Fresh(cands: seq<Option<Solution>>, accepted: seq<Solution>): seq<Solution>
  {
    if cands == [] then []
    else
      var L := |cands| - 1;
      Admit(Fresh(cands[..L], accepted), cands[L], accepted)
  }

  /**
   * The fresh candidates are exactly the candidates found that no accepted
   * solution finds identical.
   */
  lemma {:induction false} FreshMembers(cands: seq<Option<Solution>>, accepted: seq<Solution>)
    ensures forall p :: p in Fresh(cands, accepted) ==> Some(p) in cands && !Found(accepted, p)
    ensures forall k :: 0 <= k < |cands| && cands[k].Some? && !Found(accepted, cands[k].value) ==>
      cands[k].value in Fresh(cands, accepted)
  {
    if cands != [] {
      var L := |cands| - 1;
      FreshMembers(cands[..L], accepted);
      assert forall x :: x in cands[..L] ==> x in cands;
      assert forall k :: 0 <= k < L ==> cands[..L][k] == cands[k];
    }
  }

  /** Appending is associative. */
  lemma AppendAssoc<T>(a: seq<T>, b: seq<T>, c: seq<T>)
    ensures (a + b) + c == a + (b + c)
  {
  }

  /**
   * A single candidate is fresh exactly when it is found and no accepted
   * solution finds it identical.
   */
  lemma FreshOne(c: Option<Solution>, accepted: seq<Solution>)
    ensures Fresh([c], accepted) == if c.Some? && !Found(accepted, c.value) then [c.value] else []
  {
    assert [c][..0] == [];
  }

  /**
   * Appending one candidate when it is fresh, then the fresh candidates of
   * later searches, appends the fresh candidates of all of them.
   */
  lemma FreshCons(c: Option<Solution>, later: seq<Option<Solution>>, accepted: seq<Solution>, grown: seq<Solution>)
    ensures Admit(grown, c, accepted) + Fresh(later, accepted) == grown + Fresh([c] + later, accepted)
  {
    FreshAppend([c], later, accepted);
    FreshOne(c, accepted);
    if !(c.Some? && !Found(accepted, c.value)) {
      assert grown + [] == grown;
    }
    assert (grown + Fresh([c], accepted)) + Fresh(later, accepted) == grown + (Fresh([c], accepted) + Fresh(later, accepted));
  }

  /** The fresh candidates of two runs of searches are those of the first run, then those of the second. */
  lemma {:induction false} FreshAppend(a: seq<Option<Solution>>, b: seq<Option<Solution>>, accepted: seq<Solution>)
    ensures Fresh(a + b, accepted) == Fresh(a, accepted) + Fresh(b, accepted)
    decreases |b|
  {
    if b == [] {
      assert a + b == a;
    } else {
      var L := |b| - 1;
      FreshAppend(a, b[..L], accepted);
      assert (a + b)[..|a + b| - 1] == a + b[..L];
      assert (a + b)[|a + b| - 1] == b[L];
      var e := if b[L].Some? && !Found(accepted, b[L].value) then [b[L].value] else [];
      assert Fresh(a + b, accepted) == Fresh(a + b[..L], accepted) + e;
      assert Fresh(b, accepted) == Fresh(b[..L], accepted) + e;
      AppendAssoc(Fresh(a, accepted), Fresh(b[..L], accepted), e);
    }
  }

  /**
   * Some accepted solution is identical to `last` on the prefix compared at
   * index `i`, so `last`'s `i`-th edge is switched off for the next search.
   */
  predicate Blocked(last: Solution, i: nat, accepted: seq<Solution>) {
    exists j :: 0 <= j < |accepted| && IsIdentical(last.breaks, accepted[j].breaks, Some(i)) == Some(true)
  }

  /** Each edge is as it was, or as it was but switched on. */
  predicate Restored(es: seq<Edge>, es0: seq<Edge>) {
    |es| == |es0| && forall k :: 0 <= k < |es| ==> es[k] == es0[k] || es[k] == es0[k].(active := true)
  }

  lemma RestoredTrans(es: seq<Edge>, es1: seq<Edge>, es0: seq<Edge>)
    requires Restored(es, es1) && Restored(es1, es0)
    ensures Restored(es, es0)
  {
    forall k | 0 <= k < |es|
      ensures es[k] == es0[k] || es[k] == es0[k].(active := true)
    {
      if es1[k] != es0[k] {
        assert es1[k] == es0[k].(active := true);
        assert es1[k].(active := true) == es0[k].(active := true);
      }
    }
  }

  class BreakGraph {
    /** Number of break nodes of the strand. */
    const n: nat
    /** Number of edges of the strand. */
    const numEdges: nat
    /** Global key of each node. */
    const key: seq<nat>
    /** Key of each node's `neighbor_break`, if any. */
    const neighbor: seq<Option<nat>>
    /** `break_edges` of each node, as edge indices. */
    const out: seq<seq<nat>>
    /** `loop_edge` of each node. */
    const loopEdge: seq<Option<nat>>
    /** `order_id` of each node, as assigned by `reset_break_order_ids`. */
    const orderId: seq<int>
    /** `utilities.INFINITY`. */
    const infinity: int
    /** The `dont_break` / `dont_break_temp` flags of all nodes. */
    const table: NodeTable

    var edges: seq<Edge>
    var score: seq<int>
    var pred: seq<Option<Pred>>
    var pathNodes: seq<seq<nat>>
    var visited: seq<bool>

    /** A strand's graph as `initialize` left it, with every node's search state reset. */
    constructor(key: seq<nat>, neighbor: seq<Option<nat>>, out: seq<seq<nat>>, loopEdge: seq<Option<nat>>,
                orderId: seq<int>, infinity: int, table: NodeTable, edges: seq<Edge>)
      ensures this.n == |key| && this.numEdges == |edges|
      ensures this.key == key && this.neighbor == neighbor && this.out == out && this.loopEdge == loopEdge
      ensures this.orderId == orderId && this.infinity == infinity && this.table == table && this.edges == edges
      ensures score == seq(|key|, _ => -infinity) && pred == seq(|key|, _ => None)
      ensures pathNodes == seq(|key|, _ => []) && visited == seq(|key|, _ => false)
    {
      n := |key|;
      numEdges := |edges|;
      this.key := key;
      this.neighbor := neighbor;
      this.out := out;
      this.loopEdge := loopEdge;
      this.orderId := orderId;
      this.infinity := infinity;
      this.table := table;
      this.edges := edges;
      score := seq(|key|, _ => -infinity);
      pred := seq(|key|, _ => None);
      pathNodes := seq(|key|, _ => []);
      visited := seq(|key|, _ => false);
    }

    /** The per-node tables have one entry per node. */
    predicate Sized() {
      |key| == n && |neighbor| == n && |orderId| == n
    }

    /** The strand's fixed structure: table sizes, a positive infinity, node keys within the flag table. */
    predicate Shape()
      reads table
    {
      && Sized() && infinity > 0
      && |table.dontBreak| == |table.dontBreakTemp|
      && (forall v :: 0 <= v < n ==> key[v] < |table.dontBreak|)
    }

    /** Edge `k` carries id `k`, and the adjacency and loop-edge tables point at edges of the right nodes. */
    predicate EdgesWellFormed(es: seq<Edge>)
    {
      && |es| == numEdges && |out| == n && |loopEdge| == n
      && (forall k :: 0 <= k < |es| ==> es[k].id == k && es[k].src < n && es[k].dst < n)
      && (forall u, m :: 0 <= u < n && 0 <= m < |out[u]| ==> out[u][m] < |es| && es[out[u][m]].src == u)
      && (forall u :: 0 <= u < n && loopEdge[u].Some? ==>
            loopEdge[u].value < |es| && es[loopEdge[u].value].src == u && es[loopEdge[u].value].dst == u)
    }

    predicate GraphOk()
      reads this`edges, table
    {
      Shape() && EdgesWellFormed(edges)
    }

    /** One search entry per node. */
    predicate StateOk(s: SearchState) {
      |s.score| == n && |s.pred| == n && |s.pathNodes| == n && |s.visited| == n
    }

    /** The search fields of the strand's nodes, as one value. */
    function State(): SearchState
      reads this`score, this`pred, this`pathNodes, this`visited
    {
      SearchState(score, pred, pathNodes, visited)
    }

    predicate Valid()
      reads this, table
    {
      GraphOk() && StateOk(State())
    }

    /** The state `reset_break_path` leaves on every node: score minus INFINITY, no predecessor, no path nodes, unvisited. */
    function Initial(): (s: SearchState)
      ensures StateOk(s)
    {
      SearchState(seq(n, _ => -infinity), seq(n, _ => None), seq(n, _ => []), seq(n, _ => false))
    }

    predicate ResetState()
      reads this
    {
      State() == Initial()
    }

    /** Switching edges on or off keeps the graph well formed. */
    lemma ToggleKeepsWellFormed(es: seq<Edge>, es': seq<Edge>)
      requires EdgesWellFormed(es) && |es'| == |es|
      requires forall k :: 0 <= k < |es| ==> es'[k] == es[k].(active := es'[k].active)
      ensures EdgesWellFormed(es')
    {
    }

    /** `BreakEdge.is_valid` for an edge of this strand. */
    predicate EdgeValid(e: Edge)
      reads table
      requires Shape() && e.src < n && e.dst < n
    {
      IsValid(e, table.Flags(key[e.src]), table.Flags(key[e.dst]))
    }

    function FilterValid(es: seq<Edge>, ids: seq<nat>): (r: seq<nat>)
      reads table
      requires Shape() && EdgesWellFormed(es) && forall x :: x in ids ==> x < |es|
      ensures forall x :: x in r <==> x in ids && EdgeValid(es[x])
    {
      if ids == [] then []
      else
        assert forall x :: x in ids <==> x == ids[0] || x in ids[1..];
        assert ids[0] in ids;
        var rest := FilterValid(es, ids[1..]);
        if EdgeValid(es[ids[0]]) then [ids[0]] + rest else rest
    }

    /** `get_valid_edges`: the node's edges that are currently valid. */
    function ValidOut(es: seq<Edge>, u: nat): (r: seq<nat>)
      reads table
      requires Shape() && EdgesWellFormed(es) && u < n
      ensures forall x :: x in r ==> x < |es| && es[x].src == u && EdgeValid(es[x])
      ensures forall m :: 0 <= m < |out[u]| && EdgeValid(es[out[u][m]]) ==> out[u][m] in r
      ensures forall k :: 0 <= k < |r| ==> r[k] < |es| && es[r[k]].src == u
    {
      assert forall x :: x in out[u] ==> x < |es| && es[x].src == u by {
        forall x | x in out[u] ensures x < |es| && es[x].src == u {
          var m :| 0 <= m < |out[u]| && out[u][m] == x;
        }
      }
      var r := FilterValid(es, out[u]);
      assert forall k :: 0 <= k < |r| ==> r[k] in r;
      r
    }

    /** The order ids `reset_break_order_ids` leaves: 0 at the start node, positive elsewhere. */
    predicate OrderReady(start: nat)
    {
      start < n && |orderId| == n && orderId[start] == 0
      && forall v :: 0 <= v < n && v != start ==> orderId[v] > 0
    }

    /**
     * A stored predecessor is an edge of the strand into `v`; away from the
     * start node it comes from the start or from a node of smaller order.
     */
    predicate PredLinks(es: seq<Edge>, v: nat, p: Pred, start: nat)
      requires |orderId| == n && v < n
    {
      && p.node < n && p.edge < |es| && es[p.edge].src == p.node && es[p.edge].dst == v
      && (v != start ==> p.node == start || 0 < orderId[p.node] < orderId[v])
    }

    predicate PredOk(es: seq<Edge>, pr: seq<Option<Pred>>, start: nat)
      requires |orderId| == n && |pr| == n
    {
      forall v :: 0 <= v < n && pr[v].Some? ==> PredLinks(es, v, pr[v].value, start)
    }

    // ---------------------------------------------------------------------
    // The search as functions of the edge list and the search state

    /**
     * The score edge `id` out of `u` offers its target: the weight alone when
     * `u` has order 0, otherwise `u`'s score plus the weight; less INFINITY
     * squared when `u`'s neighbour break is already among `u`'s path nodes.
     */
    function Candidate(es: seq<Edge>, s: SearchState, u: nat, id: nat): int
      requires Sized() && StateOk(s) && u < n && id < |es|
    {
      var base := if orderId[u] == 0 then es[id].weight else s.score[u] + es[id].weight;
      if neighbor[u].Some? && neighbor[u].value in s.pathNodes[u] then base - infinity * infinity else base
    }

    /** The target of edge `id` takes the candidate from `u` when it is strictly better: predecessor, path nodes and score. */
    function Improved(es: seq<Edge>, s: SearchState, u: nat, id: nat): (r: SearchState)
      requires Sized() && EdgesWellFormed(es) && StateOk(s) && u < n && id < |es|
      ensures StateOk(r) && r.visited == s.visited
    {
      var t := es[id].dst;
      var c := Candidate(es, s, u, id);
      if c > s.score[t] then
        SearchState(s.score[t := c], s.pred[t := Some(Pred(u, id, c))], s.pathNodes[t := s.pathNodes[u] + [key[u]]], s.visited)
      else s
    }

    /**
     * One iteration of the inner loop of `get_shortest_path` over the valid
     * edge `id` out of `u`: nothing when the order ids forbid the edge;
     * otherwise the target may improve, is queued unless it was visited,
     * and is marked visited. Returns the new state and what was queued.
     */
    function Step(es: seq<Edge>, s: SearchState, u: nat, id: nat): (r: (SearchState, seq<nat>))
      requires Sized() && EdgesWellFormed(es) && StateOk(s) && u < n && id < |es|
      ensures StateOk(r.0) && forall x :: x in r.1 ==> x < n
      ensures Unvisited(r.0.visited) + |r.1| == Unvisited(s.visited)
    {
      var t := es[id].dst;
      if !IsBreakEdgePossible(orderId[u], orderId[t]) then (s, [])
      else
        var s' := Improved(es, s, u, id);
        UnvisitedMark(s.visited, t);
        (s'.(visited := s.visited[t := true]), if s.visited[t] then [] else [t])
    }

    /** The inner loop of `get_shortest_path` over the edges `ids` of `u`, in order. */
    function ExpandF(es: seq<Edge>, s: SearchState, u: nat, ids: seq<nat>): (r: (SearchState, seq<nat>))
      requires Sized() && EdgesWellFormed(es) && StateOk(s) && u < n
      requires forall k :: 0 <= k < |ids| ==> ids[k] < |es|
      ensures StateOk(r.0) && forall x :: x in r.1 ==> x < n
      ensures Unvisited(r.0.visited) + |r.1| == Unvisited(s.visited)
      decreases |ids|
    {
      if ids == [] then (s, [])
      else
        var L := |ids| - 1;
        var p := ExpandF(es, s, u, ids[..L]);
        var q := Step(es, p.0, u, ids[L]);
        (q.0, p.1 + q.1)
    }

    /**
     * The `while stack` loop of `get_shortest_path`: take the head of the
     * queue; stop if it is the final node and that node was visited;
     * otherwise relax its valid edges and queue what they reached.
     */
    function RunF(es: seq<Edge>, s: SearchState, queue: seq<nat>, final: nat): (r: SearchState)
      reads table
      requires Shape() && EdgesWellFormed(es) && StateOk(s) && final < n
      requires forall x :: x in queue ==> x < n
      ensures StateOk(r)
      decreases Unvisited(s.visited), |queue|
    {
      if queue == [] then s
      else
        assert queue[0] in queue;
        var u := queue[0];
        if s.visited[final] && u == final then s
        else
          var e := ExpandF(es, s, u, ValidOut(es, u));
          assert forall x :: x in queue[1..] + e.1 ==> x in queue || x in e.1;
          RunF(es, e.0, queue[1..] + e.1, final)
    }

    /**
     * The closing step of `get_shortest_path`: when start and final coincide,
     * a valid loop edge whose weight beats the final node's score becomes its
     * predecessor, with that weight as the score (path nodes untouched).
     */
    function LoopF(es: seq<Edge>, s: SearchState, start: nat, final: nat): (r: SearchState)
      reads table
      requires Shape() && EdgesWellFormed(es) && StateOk(s) && start < n && final < n
      ensures StateOk(r)
    {
      if start == final && loopEdge[start].Some? && EdgeValid(es[loopEdge[start].value])
         && es[loopEdge[start].value].weight > s.score[final]
      then
        var id := loopEdge[start].value;
        s.(score := s.score[final := es[id].weight], pred := s.pred[final := Some(Pred(start, id, es[id].weight))])
      else s
    }

    /** The state `get_shortest_path` leaves, run on a reset strand. */
    function SearchF(es: seq<Edge>, start: nat, final: nat): (r: SearchState)
      reads table
      requires Shape() && EdgesWellFormed(es) && start < n && final < n
      ensures StateOk(r)
    {
      LoopF(es, RunF(es, Initial(), [start], final), start, final)
    }

    /** What one inner iteration does to the fields and the queue. */
    lemma StepFacts(es: seq<Edge>, s: SearchState, u: nat, id: nat)
      requires Sized() && EdgesWellFormed(es) && StateOk(s) && u < n && id < |es|
      ensures var r := Step(es, s, u, id);
        var t := es[id].dst;
        var possible := IsBreakEdgePossible(orderId[u], orderId[t]);
        && r.1 == (if possible && !s.visited[t] then [t] else [])
        && r.0.visited == (if possible then s.visited[t := true] else s.visited)
        && (forall v :: 0 <= v < n ==> r.0.score[v] >= s.score[v])
        && r.0.score[u] == s.score[u] && r.0.pathNodes[u] == s.pathNodes[u]
        && (possible ==> r.0.score[t] >= Candidate(es, s, u, id))
    {
    }

    /** The inner loop over one more edge is one more `Step`. */
    lemma ExpandSnoc(es: seq<Edge>, s: SearchState, u: nat, ids: seq<nat>, m: nat)
      requires Sized() && EdgesWellFormed(es) && StateOk(s) && u < n
      requires forall k :: 0 <= k < |ids| ==> ids[k] < |es|
      requires m < |ids|
      ensures var p := ExpandF(es, s, u, ids[..m]);
        var q := Step(es, p.0, u, ids[m]);
        ExpandF(es, s, u, ids[..m + 1]) == (q.0, p.1 + q.1)
    {
      assert ids[..m + 1][..m] == ids[..m];
    }

    /** The inner loop never lowers a score and leaves `u`'s own entry untouched. */
    lemma {:induction false} ExpandKeeps(es: seq<Edge>, s: SearchState, u: nat, ids: seq<nat>)
      requires Sized() && EdgesWellFormed(es) && StateOk(s) && u < n
      requires forall k :: 0 <= k < |ids| ==> ids[k] < |es|
      ensures var r := ExpandF(es, s, u, ids);
        && (forall v :: 0 <= v < n ==> r.0.score[v] >= s.score[v])
        && r.0.score[u] == s.score[u] && r.0.pathNodes[u] == s.pathNodes[u]
      decreases |ids|
    {
      if ids != [] {
        var L := |ids| - 1;
        ExpandKeeps(es, s, u, ids[..L]);
        StepFacts(es, ExpandF(es, s, u, ids[..L]).0, u, ids[L]);
      }
    }

    /** After the inner loop a node is visited exactly when it was visited before or was queued by the loop. */
    lemma {:induction false} ExpandVisited(es: seq<Edge>, s: SearchState, u: nat, ids: seq<nat>)
      requires Sized() && EdgesWellFormed(es) && StateOk(s) && u < n
      requires forall k :: 0 <= k < |ids| ==> ids[k] < |es|
      ensures var r := ExpandF(es, s, u, ids);
        forall v :: 0 <= v < n ==> (r.0.visited[v] <==> s.visited[v] || v in r.1)
      decreases |ids|
    {
      if ids != [] {
        var L := |ids| - 1;
        ExpandVisited(es, s, u, ids[..L]);
        var p := ExpandF(es, s, u, ids[..L]);
        var q := Step(es, p.0, u, ids[L]);
        StepFacts(es, p.0, u, ids[L]);
        assert ExpandF(es, s, u, ids) == (q.0, p.1 + q.1);
        forall v | 0 <= v < n
          ensures q.0.visited[v] <==> s.visited[v] || v in p.1 + q.1
        {
          assert v in p.1 + q.1 <==> v in p.1 || v in q.1;
        }
      }
    }

    /** The candidate an edge offers depends only on the source node's score and path nodes. */
    lemma CandidateFrame(es: seq<Edge>, s: SearchState, s': SearchState, u: nat, id: nat)
      requires Sized() && StateOk(s) && StateOk(s') && u < n && id < |es|
      requires s'.score[u] == s.score[u] && s'.pathNodes[u] == s.pathNodes[u]
      ensures Candidate(es, s', u, id) == Candidate(es, s, u, id)
    {
    }

    /**
     * In state `r`, the target of every edge in `ids` that the order ids
     * allow is visited and scores at least the candidate that edge offered
     * from state `s`.
     */
    predicate Covers(es: seq<Edge>, s: SearchState, u: nat, ids: seq<nat>, r: SearchState)
      requires Sized() && EdgesWellFormed(es) && StateOk(s) && StateOk(r) && u < n
      requires forall k :: 0 <= k < |ids| ==> ids[k] < |es|
    {
      forall k :: 0 <= k < |ids| && IsBreakEdgePossible(orderId[u], orderId[es[ids[k]].dst]) ==>
        r.visited[es[ids[k]].dst] && r.score[es[ids[k]].dst] >= Candidate(es, s, u, ids[k])
    }

    /** A state that keeps every visit and score of `p`, which covers all of `ids` but its last, and covers the last covers `ids`. */
    lemma CoversSnoc(es: seq<Edge>, s: SearchState, u: nat, ids: seq<nat>, p: SearchState, q: SearchState)
      requires Sized() && EdgesWellFormed(es) && StateOk(s) && StateOk(p) && StateOk(q) && u < n && ids != []
      requires forall k :: 0 <= k < |ids| ==> ids[k] < |es|
      requires Covers(es, s, u, ids[..|ids| - 1], p)
      requires forall v :: 0 <= v < n && p.visited[v] ==> q.visited[v]
      requires forall v :: 0 <= v < n ==> q.score[v] >= p.score[v]
      requires var id := ids[|ids| - 1];
        IsBreakEdgePossible(orderId[u], orderId[es[id].dst]) ==>
          q.visited[es[id].dst] && q.score[es[id].dst] >= Candidate(es, s, u, id)
      ensures Covers(es, s, u, ids, q)
    {
      var pre := ids[..|ids| - 1];
      forall k | 0 <= k < |ids| && IsBreakEdgePossible(orderId[u], orderId[es[ids[k]].dst])
        ensures q.visited[es[ids[k]].dst] && q.score[es[ids[k]].dst] >= Candidate(es, s, u, ids[k])
      {
        if k < |pre| {
          assert ids[k] == pre[k];
        }
      }
    }

    /** The last pass of the inner loop over `ids` keeps every visit and score and covers the last edge. */
    lemma StepCoversLast(es: seq<Edge>, s: SearchState, u: nat, ids: seq<nat>)
      requires Sized() && EdgesWellFormed(es) && StateOk(s) && u < n && ids != []
      requires forall k :: 0 <= k < |ids| ==> ids[k] < |es|
      ensures var p := ExpandF(es, s, u, ids[..|ids| - 1]).0;
        var q := ExpandF(es, s, u, ids).0;
        var id := ids[|ids| - 1];
        && (forall v :: 0 <= v < n && p.visited[v] ==> q.visited[v])
        && (forall v :: 0 <= v < n ==> q.score[v] >= p.score[v])
        && (IsBreakEdgePossible(orderId[u], orderId[es[id].dst]) ==>
              q.visited[es[id].dst] && q.score[es[id].dst] >= Candidate(es, s, u, id))
    {
      var L := |ids| - 1;
      ExpandKeeps(es, s, u, ids[..L]);
      var p := ExpandF(es, s, u, ids[..L]);
      StepFacts(es, p.0, u, ids[L]);
      CandidateFrame(es, s, p.0, u, ids[L]);
    }

    /**
     * After the inner loop over `ids`, the target of every edge the order ids
     * allow is visited and scores at least the candidate that edge offered
     * from the state before the loop.
     */
    lemma {:induction false} ExpandCovers(es: seq<Edge>, s: SearchState, u: nat, ids: seq<nat>)
      requires Sized() && EdgesWellFormed(es) && StateOk(s) && u < n
      requires forall k :: 0 <= k < |ids| ==> ids[k] < |es|
      ensures Covers(es, s, u, ids, ExpandF(es, s, u, ids).0)
      decreases |ids|
    {
      if ids != [] {
        var L := |ids| - 1;
        var pre := ids[..L];
        ExpandCovers(es, s, u, pre);
        StepCoversLast(es, s, u, ids);
        CoversSnoc(es, s, u, ids, ExpandF(es, s, u, pre).0, ExpandF(es, s, u, ids).0);
      }
    }

    /**
     * After the inner loop over all valid edges of `u`, the target of every
     * usable edge is visited and scores at least the candidate the edge
     * offered from the state before the loop.
     */
    lemma ExpandUsable(es: seq<Edge>, s: SearchState, u: nat)
      requires Shape() && EdgesWellFormed(es) && StateOk(s) && u < n
      ensures var r := ExpandF(es, s, u, ValidOut(es, u));
        forall id: nat :: Usable(es, u, id) ==>
          r.0.visited[es[id].dst] && r.0.score[es[id].dst] >= Candidate(es, s, u, id)
    {
      var ids := ValidOut(es, u);
      ExpandCovers(es, s, u, ids);
      forall id: nat | Usable(es, u, id)
        ensures ExpandF(es, s, u, ids).0.visited[es[id].dst] && ExpandF(es, s, u, ids).0.score[es[id].dst] >= Candidate(es, s, u, id)
      {
        var k :| 0 <= k < |ids| && ids[k] == id;
      }
    }

    lemma StepPredOk(es: seq<Edge>, s: SearchState, u: nat, id: nat, start: nat)
      requires Sized() && EdgesWellFormed(es) && StateOk(s) && u < n && id < |es| && es[id].src == u
      requires OrderReady(start) && PredOk(es, s.pred, start)
      ensures PredOk(es, Step(es, s, u, id).0.pred, start)
    {
      BreakEdgePossibleIff(orderId[u], orderId[es[id].dst]);
    }

    lemma {:induction false} ExpandPredOk(es: seq<Edge>, s: SearchState, u: nat, ids: seq<nat>, start: nat)
      requires Sized() && EdgesWellFormed(es) && StateOk(s) && u < n
      requires forall k :: 0 <= k < |ids| ==> ids[k] < |es| && es[ids[k]].src == u
      requires OrderReady(start) && PredOk(es, s.pred, start)
      ensures PredOk(es, ExpandF(es, s, u, ids).0.pred, start)
      decreases |ids|
    {
      if ids != [] {
        var L := |ids| - 1;
        ExpandPredOk(es, s, u, ids[..L], start);
        StepPredOk(es, ExpandF(es, s, u, ids[..L]).0, u, ids[L], start);
      }
    }

    lemma {:induction false} RunPredOk(es: seq<Edge>, s: SearchState, queue: seq<nat>, final: nat, start: nat)
      requires Shape() && EdgesWellFormed(es) && StateOk(s) && final < n
      requires forall x :: x in queue ==> x < n
      requires OrderReady(start) && PredOk(es, s.pred, start)
      ensures PredOk(es, RunF(es, s, queue, final).pred, start)
      decreases Unvisited(s.visited), |queue|
    {
      if queue != [] && !(s.visited[final] && queue[0] == final) {
        assert queue[0] in queue;
        var u := queue[0];
        var ids := ValidOut(es, u);
        ExpandPredOk(es, s, u, ids, start);
        var e := ExpandF(es, s, u, ids);
        assert forall x :: x in queue[1..] + e.1 ==> x in queue || x in e.1;
        RunPredOk(es, e.0, queue[1..] + e.1, final, start);
      }
    }

    /** Every predecessor the search stores links back towards the start node, so the chain can be traced. */
    lemma SearchPredOk(es: seq<Edge>, start: nat, final: nat)
      requires Shape() && EdgesWellFormed(es) && OrderReady(start) && final < n
      ensures PredOk(es, SearchF(es, start, final).pred, start)
    {
      RunPredOk(es, Initial(), [start], final, start);
    }

    // ---------------------------------------------------------------------
    // Soundness: every stored predecessor is justified

    /**
     * Why the search stored predecessor `p` at `v` under scores `sc`: either a
     * usable forward edge whose score is the edge weight alone when leaving an
     * order-0 node (less the neighbour penalty, if it applied) and at most the
     * predecessor's score plus the weight otherwise, or the start node's valid
     * loop edge with its weight when start and final coincide.
     */
    predicate Justified(es: seq<Edge>, sc: seq<int>, v: nat, p: Pred, start: nat, final: nat)
      reads table
      requires Shape() && EdgesWellFormed(es) && v < n && |sc| == n
    {
      && p.node < n && p.edge < |es| && p.score == sc[v]
      && es[p.edge].src == p.node && es[p.edge].dst == v && EdgeValid(es[p.edge])
      && var w := es[p.edge].weight;
      if p.node != v then
        && IsBreakEdgePossible(orderId[p.node], orderId[v])
        && (orderId[p.node] == 0 ==> p.score == w || p.score == w - infinity * infinity)
        && (orderId[p.node] != 0 ==> p.score <= sc[p.node] + w)
      else
        v == start && v == final && loopEdge[v] == Some(p.edge) && p.score == w
    }

    /**
     * Relative to the state `s0` the search started from: no score went down,
     * a node's entry changed only together with a strictly greater score,
     * and every new predecessor is justified.
     */
    predicate Progress(es: seq<Edge>, s0: SearchState, s: SearchState, start: nat, final: nat)
      reads table
      requires Shape() && EdgesWellFormed(es) && StateOk(s0) && StateOk(s)
    {
      forall v :: 0 <= v < n ==>
        && s.score[v] >= s0.score[v]
        && (s.pred[v] != s0.pred[v] || s.pathNodes[v] != s0.pathNodes[v] || s.score[v] != s0.score[v] ==> s.score[v] > s0.score[v])
        && (s.pred[v] != s0.pred[v] ==> s.pred[v].Some? && Justified(es, s.score, v, s.pred[v].value, start, final))
    }

    /** The invariant of one run of `get_shortest_path` from the state `s0`. */
    ghost predicate Searching(es: seq<Edge>, start: nat, final: nat, s0: SearchState, s: SearchState)
      reads table
    {
      && Shape() && EdgesWellFormed(es) && OrderReady(start) && final < n && StateOk(s0) && StateOk(s)
      && PredOk(es, s.pred, start) && Progress(es, s0, s, start, final)
    }

    lemma JustifiedMono(es: seq<Edge>, sc: seq<int>, sc': seq<int>, v: nat, p: Pred, start: nat, final: nat)
      requires Shape() && EdgesWellFormed(es) && v < n && |sc| == n && |sc'| == n
      requires Justified(es, sc, v, p, start, final)
      requires sc'[v] == sc[v] && forall x :: 0 <= x < n ==> sc'[x] >= sc[x]
      ensures Justified(es, sc', v, p, start, final)
    {
    }

    /** Storing a strictly better, justified entry at `t` keeps the search's progress. */
    lemma ProgressUpdate(es: seq<Edge>, s0: SearchState, s: SearchState, t: nat, p: Pred, path: seq<nat>, start: nat, final: nat)
      requires Shape() && EdgesWellFormed(es) && StateOk(s0) && StateOk(s)
      requires Progress(es, s0, s, start, final)
      requires t < n && p.score > s.score[t] && Justified(es, s.score[t := p.score], t, p, start, final)
      ensures Progress(es, s0, s.(score := s.score[t := p.score], pred := s.pred[t := Some(p)], pathNodes := s.pathNodes[t := path]), start, final)
    {
      var sc' := s.score[t := p.score];
      forall v | 0 <= v < n && v != t && s.pred[v] != s0.pred[v]
        ensures Justified(es, sc', v, s.pred[v].value, start, final)
      {
        JustifiedMono(es, s.score, sc', v, s.pred[v].value, start, final);
      }
    }

    /**
     * The candidate a usable edge `u -> t` offers is a justified predecessor
     * entry for `t`, linked towards the start; the edge never loops on `u`.
     */
    lemma CandidateJustified(es: seq<Edge>, s: SearchState, u: nat, id: nat, start: nat, final: nat)
      requires Shape() && EdgesWellFormed(es) && OrderReady(start) && StateOk(s) && u < n
      requires id < |es| && es[id].src == u && EdgeValid(es[id])
      requires IsBreakEdgePossible(orderId[u], orderId[es[id].dst])
      ensures es[id].dst != u
      ensures var c := Candidate(es, s, u, id);
        && Justified(es, s.score[es[id].dst := c], es[id].dst, Pred(u, id, c), start, final)
        && PredLinks(es, es[id].dst, Pred(u, id, c), start)
    {
      PenaltyPositive(infinity);
    }

    // ---------------------------------------------------------------------
    // Completeness: what the search is sure to reach

    /** Edge `id` is a valid edge out of `u` that the order ids allow. */
    predicate Usable(es: seq<Edge>, u: nat, id: nat)
      reads table
      requires Shape() && EdgesWellFormed(es) && u < n
    {
      id in ValidOut(es, u) && IsBreakEdgePossible(orderId[u], orderId[es[id].dst])
    }

    /** Every node a usable edge from the start reaches scores at least that edge's weight. */
    ghost predicate StartBound(es: seq<Edge>, s: SearchState, start: nat)
      reads table
      requires Shape() && EdgesWellFormed(es) && StateOk(s) && start < n
    {
      forall id: nat :: Usable(es, start, id) ==> s.score[es[id].dst] >= es[id].weight
    }

    /** Every node a usable edge out of `u` reaches is visited. */
    ghost predicate Covered(es: seq<Edge>, s: SearchState, u: nat)
      reads table
      requires Shape() && EdgesWellFormed(es) && StateOk(s) && u < n
    {
      forall id: nat :: Usable(es, u, id) ==> s.visited[es[id].dst]
    }

    /** `ids` is a walk of usable edges from `u` to `v`. */
    ghost predicate SearchPath(es: seq<Edge>, u: nat, ids: seq<nat>, v: nat)
      reads table
      requires Shape() && EdgesWellFormed(es) && u < n
      decreases |ids|
    {
      if ids == [] then u == v
      else Usable(es, u, ids[0]) && SearchPath(es, es[ids[0]].dst, ids[1..], v)
    }

    /**
     * What a finished search is sure of: every node a usable start edge
     * reaches scores at least that edge's weight, and the final node is
     * visited whenever a non-empty walk of usable edges leads to it.
     */
    ghost predicate Complete(es: seq<Edge>, s: SearchState, start: nat, final: nat)
      reads table
      requires Shape() && EdgesWellFormed(es) && StateOk(s) && start < n && final < n
    {
      && StartBound(es, s, start)
      && forall ids :: ids != [] && SearchPath(es, start, ids, final) ==> s.visited[final]
    }

    /** A walk of usable edges out of an expanded node ends at a visited node when all visited nodes were expanded. */
    lemma {:induction false} ReachVisited(es: seq<Edge>, s: SearchState, expanded: set<nat>, u: nat, ids: seq<nat>, v: nat)
      requires Shape() && EdgesWellFormed(es) && StateOk(s) && u < n
      requires forall w :: w in expanded ==> w < n && Covered(es, s, w)
      requires forall w :: 0 <= w < n && s.visited[w] ==> w in expanded
      requires u in expanded && v < n && ids != [] && SearchPath(es, u, ids, v)
      ensures s.visited[v]
      decreases |ids|
    {
      var t := es[ids[0]].dst;
      assert Covered(es, s, u);
      assert s.visited[t];
      if |ids| > 1 {
        ReachVisited(es, s, expanded, t, ids[1..], v);
      }
    }

    /** A finished search stays complete when scores only rise and the visited marks stay. */
    lemma CompleteMono(es: seq<Edge>, s: SearchState, s': SearchState, start: nat, final: nat)
      requires Shape() && EdgesWellFormed(es) && StateOk(s) && StateOk(s') && start < n && final < n
      requires Complete(es, s, start, final)
      requires s'.visited == s.visited && forall v :: 0 <= v < n ==> s'.score[v] >= s.score[v]
      ensures Complete(es, s', start, final)
    {
    }

    // ---------------------------------------------------------------------
    // `get_shortest_path` on the object's fields

    /** Store a strictly better entry at node `t`: its predecessor, the nodes on its path and its score. */
    method Improve(t: nat, p: Pred, path: seq<nat>, ghost start: nat, ghost final: nat, ghost s0: SearchState)
      requires Valid() && Searching(edges, start, final, s0, State()) && t < n
      requires p.score > score[t] && Justified(edges, score[t := p.score], t, p, start, final) && PredLinks(edges, t, p, start)
      modifies this
      ensures Valid() && Searching(edges, start, final, s0, State()) && edges == old(edges)
      ensures State() == old(State()).(score := old(score)[t := p.score], pred := old(pred)[t := Some(p)],
                                       pathNodes := old(pathNodes)[t := path])
    {
      ProgressUpdate(edges, s0, State(), t, p, path, start, final);
      pred := pred[t := Some(p)];
      pathNodes := pathNodes[t := path];
      score := score[t := p.score];
    }

    /**
     * The scoring half of one iteration of the inner loop of
     * `get_shortest_path`: follow the valid edge `id` out of `u` if the order
     * ids allow it (`possible`), and store the candidate at the target when it
     * beats the stored score.
     */
    method Relax(u: nat, id: nat, ghost start: nat, ghost final: nat, ghost s0: SearchState)
      returns (target: nat, possible: bool)
      requires Valid() && Searching(edges, start, final, s0, State()) && u < n
      requires id < |edges| && edges[id].src == u && EdgeValid(edges[id])
      modifies this
      ensures Valid() && Searching(edges, start, final, s0, State()) && edges == old(edges)
      ensures target == edges[id].dst && possible == IsBreakEdgePossible(orderId[u], orderId[target])
      ensures State() == if possible then Improved(edges, old(State()), u, id) else old(State())
      ensures possible ==> target != u && score[target] >= old(Candidate(edges, State(), u, id))
      ensures possible && old(Candidate(edges, State(), u, id)) > old(score)[target] ==>
        pred[target] == Some(Pred(u, id, old(Candidate(edges, State(), u, id))))
    {
      target := edges[id].dst;
      possible := IsBreakEdgePossible(orderId[u], orderId[target]);
      if !possible {
        return;
      }
      var newScore := Candidate(edges, State(), u, id);
      CandidateJustified(edges, State(), u, id, start, final);
      if newScore > score[target] {
        Improve(target, Pred(u, id, newScore), pathNodes[u] + [key[u]], start, final, s0);
      }
    }

    /** Queue `t` unless it was visited, then mark it visited. */
    method Visit(t: nat, ghost start: nat, ghost final: nat, ghost s0: SearchState) returns (enqueue: bool)
      requires Valid() && Searching(edges, start, final, s0, State()) && t < n
      modifies this
      ensures Valid() && Searching(edges, start, final, s0, State()) && edges == old(edges)
      ensures State() == old(State()).(visited := old(visited)[t := true]) && enqueue == !old(visited)[t]
    {
      enqueue := !visited[t];
      visited := visited[t := true];
    }

    /**
     * The inner loop of `get_shortest_path`: relax every valid edge out of
     * `u`; returns the nodes it queued. Every usable edge's target ends
     * visited and scoring at least the candidate the edge offered.
     */
    method Expand(u: nat, ghost start: nat, ghost final: nat, ghost s0: SearchState) returns (added: seq<nat>)
      requires Valid() && Searching(edges, start, final, s0, State()) && u < n
      modifies this
      ensures Valid() && Searching(edges, start, final, s0, State()) && edges == old(edges)
      ensures (State(), added) == ExpandF(edges, old(State()), u, ValidOut(edges, u))
      ensures forall id: nat :: Usable(edges, u, id) ==>
        visited[edges[id].dst] && score[edges[id].dst] >= old(Candidate(edges, State(), u, id))
    {
      var ids := ValidOut(edges, u);
      added := [];
      var m := 0;
      while m < |ids|
        invariant 0 <= m <= |ids|
        invariant Valid() && Searching(edges, start, final, s0, State()) && edges == old(edges) && ids == ValidOut(edges, u)
        invariant (State(), added) == ExpandF(edges, old(State()), u, ids[..m])
      {
        assert ids[m] in ids;
        ExpandSnoc(edges, old(State()), u, ids, m);
        var queued := ExpandOne(u, ids[m], start, final, s0);
        added := added + queued;
        m := m + 1;
      }
      assert ids[..|ids|] == ids;
      ExpandUsable(edges, old(State()), u);
    }

    /** One iteration of the inner loop of `get_shortest_path`: relax edge `id`, then queue and mark its target. */
    method ExpandOne(u: nat, id: nat, ghost start: nat, ghost final: nat, ghost s0: SearchState) returns (queued: seq<nat>)
      requires Valid() && Searching(edges, start, final, s0, State()) && u < n
      requires id < |edges| && edges[id].src == u && EdgeValid(edges[id])
      modifies this
      ensures Valid() && Searching(edges, start, final, s0, State()) && edges == old(edges)
      ensures (State(), queued) == Step(edges, old(State()), u, id)
    {
      queued := [];
      var target, possible := Relax(u, id, start, final, s0);
      if possible {
        var enqueue := Visit(target, start, final, s0);
        if enqueue {
          queued := [target];
        }
      }
    }

    /**
     * The `while stack` loop of `get_shortest_path` on a reset strand. Besides
     * its result it is sure of `Complete`: the start's usable edges raised
     * their targets to at least their weights, and a final node reachable
     * along usable edges is visited.
     */
    method RunQueue(start: nat, final: nat)
      requires Valid() && OrderReady(start) && final < n && ResetState()
      modifies this
      ensures Valid() && edges == old(edges)
      ensures State() == RunF(edges, old(State()), [start], final)
      ensures Searching(edges, start, final, old(State()), State())
      ensures Complete(edges, State(), start, final)
    {
      ghost var s0 := State();
      var queue: seq<nat> := [start];
      ghost var expanded: set<nat> := {};
      while queue != []
        invariant Valid() && edges == old(edges) && Searching(edges, start, final, s0, State())
        invariant forall x :: x in queue ==> x < n
        invariant RunF(edges, State(), queue, final) == RunF(edges, s0, [start], final)
        invariant Frontier(edges, s0, State(), queue, expanded, start)
        decreases Unvisited(visited), |queue|
      {
        assert queue[0] in queue;
        var u := queue[0];
        if visited[final] && u == final {
          break;
        }
        ghost var before := State();
        FrontierStep(edges, s0, before, queue, expanded, start, final);
        var added := Expand(u, start, final, s0);
        RunUnfold(edges, before, queue, final);
        assert forall x :: x in queue[1..] + added ==> x in queue || x in added;
        queue := queue[1..] + added;
        expanded := expanded + {u};
      }
      assert RunF(edges, State(), queue, final) == State();
      FrontierDone(edges, s0, State(), queue, expanded, start, final);
    }

    /**
     * The bookkeeping of the queue loop from the reset state `s0`: before the
     * first expansion only the start is queued; afterwards the start was
     * expanded and its usable edges have raised their targets; every expanded
     * node has all its usable targets visited; and every visited node was
     * expanded or is still queued.
     */
    ghost predicate Frontier(es: seq<Edge>, s0: SearchState, s: SearchState, queue: seq<nat>, expanded: set<nat>, start: nat)
      reads table
      requires Shape() && EdgesWellFormed(es) && StateOk(s) && start < n
    {
      && (expanded == {} ==> queue == [start] && s == s0)
      && (expanded != {} ==> start in expanded && StartBound(es, s, start))
      && AllCovered(es, s, expanded)
      && Tracked(s, queue, expanded)
    }

    /** Every expanded node is a node of the strand with all its usable targets visited. */
    ghost predicate AllCovered(es: seq<Edge>, s: SearchState, expanded: set<nat>)
      reads table
      requires Shape() && EdgesWellFormed(es) && StateOk(s)
    {
      forall w :: w in expanded ==> w < n && Covered(es, s, w)
    }

    /** Every visited node was expanded or is queued. */
    ghost predicate Tracked(s: SearchState, queue: seq<nat>, expanded: set<nat>)
      requires StateOk(s)
    {
      forall v :: 0 <= v < n && s.visited[v] ==> v in expanded || v in queue
    }

    /** Expanding the head of the queue keeps the bookkeeping. */
    lemma FrontierStep(es: seq<Edge>, s0: SearchState, s: SearchState, queue: seq<nat>, expanded: set<nat>, start: nat, final: nat)
      requires Shape() && EdgesWellFormed(es) && StateOk(s) && OrderReady(start) && final < n && s0 == Initial()
      requires forall x :: x in queue ==> x < n
      requires Frontier(es, s0, s, queue, expanded, start)
      requires queue != [] && !(s.visited[final] && queue[0] == final)
      ensures queue[0] < n
      ensures var e := ExpandF(es, s, queue[0], ValidOut(es, queue[0]));
        Frontier(es, s0, e.0, queue[1..] + e.1, expanded + {queue[0]}, start)
    {
      assert queue[0] in queue;
      FrontierStartStep(es, s0, s, queue, expanded, start);
      CoveredStep(es, s, queue[0], expanded);
      TrackedStep(es, s, queue, expanded);
    }

    /** After expanding the head of the queue, the start was expanded and its usable edges have raised their targets. */
    lemma FrontierStartStep(es: seq<Edge>, s0: SearchState, s: SearchState, queue: seq<nat>, expanded: set<nat>, start: nat)
      requires Shape() && EdgesWellFormed(es) && StateOk(s) && OrderReady(start) && s0 == Initial()
      requires queue != [] && queue[0] < n
      requires expanded == {} ==> queue == [start] && s == s0
      requires expanded != {} ==> start in expanded && StartBound(es, s, start)
      ensures var e := ExpandF(es, s, queue[0], ValidOut(es, queue[0]));
        start in expanded + {queue[0]} && StartBound(es, e.0, start)
    {
      var u := queue[0];
      var e := ExpandF(es, s, u, ValidOut(es, u));
      ExpandKeeps(es, s, u, ValidOut(es, u));
      if expanded == {} {
        ExpandUsable(es, s, u);
        forall id: nat | Usable(es, start, id)
          ensures e.0.score[es[id].dst] >= es[id].weight
        {
          assert Candidate(es, s, start, id) == es[id].weight;
        }
      }
    }

    /** Expanding `u` visits all its usable targets and keeps every visit: `u` joins the covered nodes. */
    lemma CoveredStep(es: seq<Edge>, s: SearchState, u: nat, expanded: set<nat>)
      requires Shape() && EdgesWellFormed(es) && StateOk(s) && u < n
      requires AllCovered(es, s, expanded)
      ensures AllCovered(es, ExpandF(es, s, u, ValidOut(es, u)).0, expanded + {u})
    {
      ExpandVisited(es, s, u, ValidOut(es, u));
      ExpandUsable(es, s, u);
    }

    /** After expanding the head of the queue, every visited node was expanded or is still queued. */
    lemma TrackedStep(es: seq<Edge>, s: SearchState, queue: seq<nat>, expanded: set<nat>)
      requires Shape() && EdgesWellFormed(es) && StateOk(s)
      requires queue != [] && queue[0] < n
      requires Tracked(s, queue, expanded)
      ensures var e := ExpandF(es, s, queue[0], ValidOut(es, queue[0]));
        Tracked(e.0, queue[1..] + e.1, expanded + {queue[0]})
    {
      var u := queue[0];
      var e := ExpandF(es, s, u, ValidOut(es, u));
      ExpandVisited(es, s, u, ValidOut(es, u));
      forall v | 0 <= v < n && e.0.visited[v]
        ensures v in expanded + {u} || v in queue[1..] + e.1
      {
        if v !in e.1 && v !in expanded && v != u {
          assert s.visited[v];
          assert queue == [u] + queue[1..];
        }
      }
    }

    /** When the queue loop ends, by an empty queue or by dequeuing the visited final node, the search is complete. */
    lemma FrontierDone(es: seq<Edge>, s0: SearchState, s: SearchState, queue: seq<nat>, expanded: set<nat>, start: nat, final: nat)
      requires Shape() && EdgesWellFormed(es) && StateOk(s) && OrderReady(start) && final < n && s0 == Initial()
      requires Frontier(es, s0, s, queue, expanded, start)
      requires queue == [] || (s.visited[final] && queue[0] == final)
      ensures Complete(es, s, start, final)
    {
      if queue == [] {
        forall ids | ids != [] && SearchPath(es, start, ids, final)
          ensures s.visited[final]
        {
          ReachVisited(es, s, expanded, start, ids, final);
        }
      }
    }

    /** One round of the queue loop. */
    lemma RunUnfold(es: seq<Edge>, s: SearchState, queue: seq<nat>, final: nat)
      requires Shape() && EdgesWellFormed(es) && StateOk(s) && final < n
      requires forall x :: x in queue ==> x < n
      requires queue != [] && !(s.visited[final] && queue[0] == final)
      ensures queue[0] < n
      ensures var e := ExpandF(es, s, queue[0], ValidOut(es, queue[0]));
        (forall x :: x in queue[1..] + e.1 ==> x < n)
        && RunF(es, s, queue, final) == RunF(es, e.0, queue[1..] + e.1, final)
    {
      assert queue[0] in queue;
      var e := ExpandF(es, s, queue[0], ValidOut(es, queue[0]));
      assert forall x :: x in queue[1..] + e.1 ==> x in queue || x in e.1;
    }

    /** The start node's loop edge exists and is valid in `es`. */
    predicate LoopUsable(es: seq<Edge>, start: nat)
      reads table
      requires Shape() && EdgesWellFormed(es) && start < n
    {
      loopEdge[start].Some? && EdgeValid(es[loopEdge[start].value])
    }

    /** The closing step of `get_shortest_path`, the loop-edge check. */
    method TryLoopEdge(start: nat, final: nat, ghost s0: SearchState)
      requires Valid() && Searching(edges, start, final, s0, State())
      modifies this
      ensures Valid() && edges == old(edges) && Searching(edges, start, final, s0, State())
      ensures State() == LoopF(edges, old(State()), start, final)
      ensures start == final && LoopUsable(edges, start) ==> score[final] >= edges[loopEdge[start].value].weight
    {
      if start == final && loopEdge[start].Some? && EdgeValid(edges[loopEdge[start].value]) {
        var id := loopEdge[start].value;
        var w := edges[id].weight;
        if w > score[final] {
          Improve(final, Pred(start, id, w), pathNodes[final], start, final, s0);
        }
      }
    }

    /**
     * `get_shortest_path` on a reset strand: a FIFO relaxation from `start`
     * that stops when `final` is dequeued after having been visited, then the
     * loop-edge check, then `traverse_best_path`. Every stored predecessor is
     * justified, the search is complete in the sense of `Complete`, and a
     * path found is a solution of the strand on its valid edges.
     */
    method GetShortestPath(start: nat, final: nat) returns (r: Option<Solution>)
      requires Valid() && OrderReady(start) && final < n && ResetState()
      modifies this
      ensures Valid() && edges == old(edges)
      ensures State() == SearchF(edges, start, final) && r == Result(edges, start, final)
      ensures Searching(edges, start, final, old(State()), State())
      ensures forall v :: 0 <= v < n && pred[v].Some? ==> Justified(edges, score, v, pred[v].value, start, final)
      ensures Complete(edges, State(), start, final)
      ensures start == final && LoopUsable(edges, start) ==> score[final] >= edges[loopEdge[start].value].weight
      ensures pred[final].None? ==> r.None?
      ensures r.Some? ==> Chain(r.value, start, final) && OnGraph(edges, r.value) && r.value.score == score[final]
    {
      ghost var s0 := State();
      RunQueue(start, final);
      ghost var s1 := State();
      TryLoopEdge(start, final, s0);
      CompleteMono(edges, s1, State(), start, final);
      r := TraverseBestPath(start, final);
      SearchSound(edges, State(), start, final);
    }

    /**
     * What a search state reached from the reset state under the search
     * invariant is sure of: every stored predecessor is justified, and the
     * path traced from it is a solution of the strand on its valid edges,
     * carrying the final node's score.
     */
    lemma SearchSound(es: seq<Edge>, s: SearchState, start: nat, final: nat)
      requires Searching(es, start, final, Initial(), s)
      ensures forall v :: 0 <= v < n && s.pred[v].Some? ==> Justified(es, s.score, v, s.pred[v].value, start, final)
      ensures s.pred[final].None? ==> BestPath(es, s.pred, s.score, start, final).None?
      ensures var r := BestPath(es, s.pred, s.score, start, final);
        r.Some? ==> Chain(r.value, start, final) && OnGraph(es, r.value) && r.value.score == s.score[final]
    {
      BestPathShape(es, s.pred, s.score, start, final);
      BestPathOnGraph(es, s.pred, s.score, start, final);
    }

    // ---------------------------------------------------------------------
    // `traverse_best_path`

    /**
     * Following stored predecessors from `p` back to the start: the
     * `BreakPath`s met on the way, or None when a predecessor is missing.
     */
    function TraceBack(es: seq<Edge>, pr: seq<Option<Pred>>, p: Pred, start: nat): Option<seq<BreakPath>>
      requires Sized() && OrderReady(start) && |pr| == n && PredOk(es, pr, start)
      requires p.node < n && p.edge < |es|
      decreases if p.node == start then 0 else orderId[p.node]
    {
      var step := BreakPath(key[p.node], Some(es[p.edge]), p.score);
      if p.node == start then Some([step])
      else match pr[p.node]
        case None => None
        case Some(q) =>
          assert PredLinks(es, p.node, q, start);
          var rest := TraceBack(es, pr, q, start);
          if rest.None? then None else Some([step] + rest.value)
    }

    /**
     * A traced chain starts with `p`'s own step and ends at the start node;
     * each step's edge is the strand's edge with that id, leaves the step's
     * node and enters the node of the step before it.
     */
    lemma {:induction false} TraceBackShape(es: seq<Edge>, pr: seq<Option<Pred>>, p: Pred, start: nat)
      requires Sized() && EdgesWellFormed(es) && OrderReady(start) && |pr| == n && PredOk(es, pr, start)
      requires p.node < n && p.edge < |es| && es[p.edge].src == p.node
      ensures var r := TraceBack(es, pr, p, start);
        r.Some? ==>
        && |r.value| >= 1
        && r.value[0] == BreakPath(key[p.node], Some(es[p.edge]), p.score)
        && r.value[|r.value| - 1].node == key[start]
        && (forall i :: 0 <= i < |r.value| ==>
              && r.value[i].edge.Some? && r.value[i].edge.value.id < |es|
              && r.value[i].edge.value == es[r.value[i].edge.value.id]
              && key[r.value[i].edge.value.src] == r.value[i].node)
        && (forall i :: 1 <= i < |r.value| ==> key[r.value[i].edge.value.dst] == r.value[i - 1].node)
      decreases if p.node == start then 0 else orderId[p.node]
    {
      if p.node != start && pr[p.node].Some? {
        var q := pr[p.node].value;
        assert PredLinks(es, p.node, q, start);
        TraceBackShape(es, pr, q, start);
      }
    }

    /**
     * `traverse_best_path`: if the final node has a predecessor, walk the
     * predecessors back until the start node, collecting the `BreakPath`s
     * behind the final node's own entry, and build the solution from them;
     * a missing predecessor on the way gives None.
     */
    method TraverseBestPath(start: nat, final: nat) returns (r: Option<Solution>)
      requires Valid() && OrderReady(start) && PredOk(edges, pred, start) && final < n
      ensures r == BestPath(edges, pred, score, start, final)
    {
      if pred[final].None? {
        return None;
      }
      var paths := [BreakPath(key[final], None, score[final])];
      var cur := pred[final].value;
      assert PredLinks(edges, final, cur, start);
      while true
        invariant cur.node < n && cur.edge < |edges| && edges[cur.edge].src == cur.node
        invariant TraceBack(edges, pred, cur, start).None? ==> Traverse(edges, pred, score, start, final).None?
        invariant TraceBack(edges, pred, cur, start).Some? ==>
          Traverse(edges, pred, score, start, final) == Some(paths + TraceBack(edges, pred, cur, start).value)
        decreases if cur.node == start then 0 else orderId[cur.node]
      {
        var step := BreakPath(key[cur.node], Some(edges[cur.edge]), cur.score);
        if cur.node == start {
          return Some(FromPaths(paths + [step], score[final]));
        }
        if pred[cur.node].None? {
          return None;
        }
        var q := pred[cur.node].value;
        assert PredLinks(edges, cur.node, q, start);
        if TraceBack(edges, pred, q, start).Some? {
          assert paths + TraceBack(edges, pred, cur, start).value == (paths + [step]) + TraceBack(edges, pred, q, start).value;
        }
        paths := paths + [step];
        cur := q;
      }
    }

    /** `traverse_best_path`'s `break_paths`: the final node's own entry, then its predecessor chain. */
    function Traverse(es: seq<Edge>, pr: seq<Option<Pred>>, sc: seq<int>, start: nat, final: nat): (r: Option<seq<BreakPath>>)
      requires Sized() && OrderReady(start) && |pr| == n && |sc| == n && PredOk(es, pr, start) && final < n
    {
      if pr[final].None? then None
      else
        var rest := TraceBack(es, pr, pr[final].value, start);
        if rest.None? then None else Some([BreakPath(key[final], None, sc[final])] + rest.value)
    }

    /** The solution `traverse_best_path` returns: the path reversed by `initialize`, scored with the final node's score. */
    function BestPath(es: seq<Edge>, pr: seq<Option<Pred>>, sc: seq<int>, start: nat, final: nat): Option<Solution>
      requires Sized() && OrderReady(start) && |pr| == n && |sc| == n && PredOk(es, pr, start) && final < n
    {
      var t := Traverse(es, pr, sc, start, final);
      if t.None? then None else Some(FromPaths(t.value, sc[final]))
    }

    /** What `get_shortest_path` returns on a reset strand whose edges are `es`. */
    function Result(es: seq<Edge>, start: nat, final: nat): Option<Solution>
      reads table
      requires Shape() && EdgesWellFormed(es) && OrderReady(start) && final < n
    {
      var s := SearchF(es, start, final);
      SearchPredOk(es, start, final);
      BestPath(es, s.pred, s.score, start, final)
    }

    /**
     * A solution of this strand from `start` to `final`: at least two breaks,
     * keyed like the nodes; the last edge entry is None and every other one
     * is an edge of the strand from the break at its position to the next.
     */
    predicate Chain(s: Solution, start: nat, final: nat)
      requires |key| == n && start < n && final < n
    {
      && |s.breaks| >= 2 && |s.edges| == |s.breaks| && |s.scores| == |s.breaks|
      && s.breaks[0] == key[start] && s.breaks[|s.breaks| - 1] == key[final]
      && s.edges[|s.edges| - 1].None?
      && forall i {:trigger s.edges[i]} :: 0 <= i < |s.edges| - 1 ==>
           && s.edges[i].Some? && s.edges[i].value.id < numEdges
           && s.edges[i].value.src < n && s.edges[i].value.dst < n
           && key[s.edges[i].value.src] == s.breaks[i] && key[s.edges[i].value.dst] == s.breaks[i + 1]
    }

    /** Every edge of the solution is, as it stands, the edge of `es` with its id, and is valid. */
    predicate OnGraph(es: seq<Edge>, s: Solution)
      reads table
      requires Shape() && EdgesWellFormed(es)
    {
      forall i :: 0 <= i < |s.edges| && s.edges[i].Some? ==>
        && s.edges[i].value.id < |es| && s.edges[i].value == es[s.edges[i].value.id]
        && EdgeValid(s.edges[i].value)
    }

    /** Reversing a chain of steps from the final node back to the start gives a solution of the strand. */
    lemma ChainFromPaths(paths: seq<BreakPath>, sc: int, start: nat, final: nat)
      requires |key| == n && start < n && final < n
      requires |paths| >= 2 && paths[0] == BreakPath(key[final], None, sc) && paths[|paths| - 1].node == key[start]
      requires forall i :: 1 <= i < |paths| ==>
        && paths[i].edge.Some? && paths[i].edge.value.id < numEdges
        && paths[i].edge.value.src < n && paths[i].edge.value.dst < n
        && key[paths[i].edge.value.src] == paths[i].node && key[paths[i].edge.value.dst] == paths[i - 1].node
      ensures Chain(FromPaths(paths, sc), start, final)
    {
      var s := FromPaths(paths, sc);
      FromPathsOrder(paths, sc);
      var L := |paths|;
      forall i | 0 <= i < L - 1
        ensures s.edges[i].Some? && s.edges[i].value.id < numEdges
        ensures s.edges[i].value.src < n && s.edges[i].value.dst < n
        ensures key[s.edges[i].value.src] == s.breaks[i] && key[s.edges[i].value.dst] == s.breaks[i + 1]
      {
        var j := L - 1 - i;
        assert s.edges[i] == paths[j].edge && s.breaks[i] == paths[j].node && s.breaks[i + 1] == paths[j - 1].node;
      }
    }

    /**
     * Without a predecessor at the final node there is no path; a path that
     * is found runs from the start to the final node along strand edges and
     * carries the final node's score.
     */
    lemma BestPathShape(es: seq<Edge>, pr: seq<Option<Pred>>, sc: seq<int>, start: nat, final: nat)
      requires Sized() && EdgesWellFormed(es) && OrderReady(start) && |pr| == n && |sc| == n && PredOk(es, pr, start) && final < n
      ensures pr[final].None? ==> BestPath(es, pr, sc, start, final).None?
      ensures BestPath(es, pr, sc, start, final).Some? ==>
        Chain(BestPath(es, pr, sc, start, final).value, start, final) && BestPath(es, pr, sc, start, final).value.score == sc[final]
    {
      var t := Traverse(es, pr, sc, start, final);
      if t.Some? {
        var p := pr[final].value;
        assert PredLinks(es, final, p, start);
        TraceBackShape(es, pr, p, start);
        var rest := TraceBack(es, pr, p, start).value;
        var paths := t.value;
        assert paths == [BreakPath(key[final], None, sc[final])] + rest;
        forall i | 1 <= i < |paths|
          ensures paths[i].edge.Some? && paths[i].edge.value.id < numEdges
          ensures paths[i].edge.value.src < n && paths[i].edge.value.dst < n
          ensures key[paths[i].edge.value.src] == paths[i].node && key[paths[i].edge.value.dst] == paths[i - 1].node
        {
          assert paths[i] == rest[i - 1];
        }
        ChainFromPaths(paths, sc[final], start, final);
        FromPathsOrder(paths, sc[final]);
      }
    }

    /** A best path found on edges `es` is a solution of the strand from `start` to `final`. */
    lemma ResultChain(es: seq<Edge>, start: nat, final: nat)
      requires Shape() && EdgesWellFormed(es) && OrderReady(start) && final < n
      ensures Result(es, start, final).Some? ==> Chain(Result(es, start, final).value, start, final)
    {
      var s := SearchF(es, start, final);
      SearchPredOk(es, start, final);
      BestPathShape(es, s.pred, s.score, start, final);
    }

    /** Every edge traced back from valid predecessors is valid. */
    lemma {:induction false} TraceBackValid(es: seq<Edge>, pr: seq<Option<Pred>>, p: Pred, start: nat)
      requires Shape() && EdgesWellFormed(es) && OrderReady(start) && |pr| == n && PredOk(es, pr, start)
      requires p.node < n && p.edge < |es| && es[p.edge].src == p.node && EdgeValid(es[p.edge])
      requires forall v :: 0 <= v < n && pr[v].Some? ==> EdgeValid(es[pr[v].value.edge])
      ensures var r := TraceBack(es, pr, p, start);
        r.Some? ==> forall i :: 0 <= i < |r.value| ==>
          r.value[i].edge.Some? && r.value[i].edge.value.id < |es| && EdgeValid(es[r.value[i].edge.value.id])
      decreases if p.node == start then 0 else orderId[p.node]
    {
      TraceBackShape(es, pr, p, start);
      if p.node != start && pr[p.node].Some? {
        var q := pr[p.node].value;
        assert PredLinks(es, p.node, q, start);
        TraceBackValid(es, pr, q, start);
        var rest := TraceBack(es, pr, q, start);
        if rest.Some? {
          assert forall k :: 0 <= k < |rest.value| ==> rest.value[k].edge.Some? && rest.value[k].edge.value.id < |es|;
          assert forall k :: 0 <= k < |rest.value| ==> EdgeValid(es[rest.value[k].edge.value.id]);
          var r := TraceBack(es, pr, p, start).value;
          assert r == [BreakPath(key[p.node], Some(es[p.edge]), p.score)] + rest.value;
          forall i | 1 <= i < |r|
            ensures r[i].edge.Some? && r[i].edge.value.id < |es| && EdgeValid(es[r[i].edge.value.id])
          {
            assert r[i] == rest.value[i - 1];
          }
        }
      }
    }

    /** A path whose steps past the first carry valid strand edges gives a solution on the graph. */
    lemma OnGraphFromPaths(es: seq<Edge>, paths: seq<BreakPath>, sc: int)
      requires Shape() && EdgesWellFormed(es) && |paths| >= 1 && paths[0].edge.None?
      requires forall i :: 1 <= i < |paths| ==>
        && paths[i].edge.Some? && paths[i].edge.value.id < |es|
        && paths[i].edge.value == es[paths[i].edge.value.id] && EdgeValid(es[paths[i].edge.value.id])
      ensures OnGraph(es, FromPaths(paths, sc))
    {
      var s := FromPaths(paths, sc);
      FromPathsOrder(paths, sc);
      forall i | 0 <= i < |s.edges| && s.edges[i].Some?
        ensures s.edges[i].value.id < |es| && s.edges[i].value == es[s.edges[i].value.id]
        ensures EdgeValid(s.edges[i].value)
      {
        var j := |paths| - 1 - i;
        assert s.edges[i] == paths[j].edge;
      }
    }

    /** When every stored predecessor's edge is valid, the path found uses the strand's own, valid edges. */
    lemma BestPathOnGraph(es: seq<Edge>, pr: seq<Option<Pred>>, sc: seq<int>, start: nat, final: nat)
      requires Shape() && EdgesWellFormed(es) && OrderReady(start) && |pr| == n && |sc| == n && PredOk(es, pr, start) && final < n
      requires forall v :: 0 <= v < n && pr[v].Some? ==> EdgeValid(es[pr[v].value.edge])
      ensures BestPath(es, pr, sc, start, final).Some? ==> OnGraph(es, BestPath(es, pr, sc, start, final).value)
    {
      var t := Traverse(es, pr, sc, start, final);
      if t.Some? {
        var p := pr[final].value;
        assert PredLinks(es, final, p, start);
        TraceBackShape(es, pr, p, start);
        TraceBackValid(es, pr, p, start);
        var rest := TraceBack(es, pr, p, start).value;
        var paths := t.value;
        assert paths == [BreakPath(key[final], None, sc[final])] + rest;
        forall i | 1 <= i < |paths|
          ensures paths[i].edge.Some? && paths[i].edge.value.id < |es|
          ensures paths[i].edge.value == es[paths[i].edge.value.id] && EdgeValid(es[paths[i].edge.value.id])
        {
          assert paths[i] == rest[i - 1];
        }
        OnGraphFromPaths(es, paths, sc[final]);
      }
    }

    /** `reset_break_paths` on the strand: every node back to its unsearched state. */
    method ResetBreakPaths()
      requires GraphOk()
      modifies this
      ensures Valid() && ResetState() && edges == old(edges)
    {
      score := seq(n, _ => -infinity);
      pred := seq(n, _ => None);
      pathNodes := seq(n, _ => []);
      visited := seq(n, _ => false);
    }

    // ---------------------------------------------------------------------
    // `get_k_shortest_paths`

    /** The edges while deviation `i` from `last` searches: `last`'s `i`-th edge switched off when blocked. */
    function SwitchedOff(es: seq<Edge>, last: Solution, i: nat, accepted: seq<Solution>): (r: seq<Edge>)
      requires i < |last.edges| && last.edges[i].Some? && last.edges[i].value.id < |es|
      ensures |r| == |es| && forall k :: 0 <= k < |es| ==> r[k] == es[k].(active := r[k].active)
      ensures EdgesWellFormed(es) ==> EdgesWellFormed(r)
    {
      var id := last.edges[i].value.id;
      if Blocked(last, i, accepted) then es[id := es[id].(active := false)] else es
    }

    /** The edges after deviation `i`: the edge that was switched off is switched back on. */
    function Reactivated(es: seq<Edge>, last: Solution, i: nat, accepted: seq<Solution>): (r: seq<Edge>)
      requires i < |last.edges| && last.edges[i].Some? && last.edges[i].value.id < |es|
      ensures |r| == |es| && forall k :: 0 <= k < |es| ==> r[k] == es[k].(active := r[k].active)
      ensures Restored(r, es)
      ensures EdgesWellFormed(es) ==> EdgesWellFormed(r)
    {
      var id := last.edges[i].value.id;
      if Blocked(last, i, accepted) then es[id := es[id].(active := true)] else es
    }

    /** Every entry of `last` but its final one names an edge of the strand: what deviating from it needs. */
    predicate Deviable(last: Solution) {
      |last.edges| >= 1 &&
      forall i {:trigger last.edges[i]} :: 0 <= i < |last.edges| - 1 ==> last.edges[i].Some? && last.edges[i].value.id < numEdges
    }

    /** A solution of the strand can be deviated from. */
    lemma ChainDeviable(s: Solution, start: nat, final: nat)
      requires |key| == n && start < n && final < n && Chain(s, start, final)
      ensures Deviable(s)
    {
    }

    /** A solution on the strand's edges uses no edge that is switched off. */
    lemma OnGraphAvoids(es: seq<Edge>, s: Solution, id: nat)
      requires Shape() && EdgesWellFormed(es) && OnGraph(es, s) && id < |es| && !es[id].active
      ensures forall m :: 0 <= m < |s.edges| && s.edges[m].Some? ==> s.edges[m].value.id != id
    {
    }

    /** Every edge list is well formed. */
    predicate AllWellFormed(offs: seq<seq<Edge>>) {
      forall k :: 0 <= k < |offs| ==> EdgesWellFormed(offs[k])
    }

    /**
     * The edge lists of the `for i` loop of `get_k_shortest_paths` from
     * deviation `i` on: the edges each deviation searches (`last`'s `i`-th
     * edge switched off when blocked, every earlier one back on), and the
     * edges after the loop, on which each edge is as it was or switched on.
     */
    function Offs(es: seq<Edge>, last: Solution, accepted: seq<Solution>, i: nat): (r: (seq<seq<Edge>>, seq<Edge>))
      requires EdgesWellFormed(es) && Deviable(last) && i <= |last.edges| - 1
      ensures |r.0| == |last.edges| - 1 - i && AllWellFormed(r.0) && EdgesWellFormed(r.1)
      ensures Restored(r.1, es)
      decreases |last.edges| - 1 - i
    {
      if i == |last.edges| - 1 then
        assert Restored(es, es);
        ([], es)
      else
        var off := SwitchedOff(es, last, i, accepted);
        var back := Reactivated(es, last, i, accepted);
        var rest := Offs(back, last, accepted, i + 1);
        RestoredTrans(rest.1, back, es);
        assert ([off] + rest.0)[1..] == rest.0;
        ([off] + rest.0, rest.1)
    }

    /** The candidate each deviation finds: one search per edge list, in order; each one found is a solution of the strand. */
    function Searches(offs: seq<seq<Edge>>, start: nat, final: nat): (r: seq<Option<Solution>>)
      reads table
      requires Shape() && OrderReady(start) && final < n && AllWellFormed(offs)
      ensures |r| == |offs|
      ensures forall c :: c in r && c.Some? ==> Chain(c.value, start, final)
      decreases |offs|
    {
      if offs == [] then []
      else
        ResultChain(offs[0], start, final);
        [Result(offs[0], start, final)] + Searches(offs[1..], start, final)
    }

    /**
     * One pass of the `for i` loop of `get_k_shortest_paths`: switching
     * `last`'s `i`-th edge off, searching and switching it back on appends
     * the search result to the pool when it is fresh, and leaves the
     * remaining deviations to the edges switched back on.
     */
    lemma DeviationStep(es: seq<Edge>, last: Solution, accepted: seq<Solution>, grown: seq<Solution>, i: nat, start: nat, final: nat)
      requires Shape() && EdgesWellFormed(es) && OrderReady(start) && final < n && Deviable(last) && i < |last.edges| - 1
      ensures grown + Fresh(Searches(Offs(es, last, accepted, i).0, start, final), accepted)
        == Admit(grown, Result(SwitchedOff(es, last, i, accepted), start, final), accepted)
           + Fresh(Searches(Offs(Reactivated(es, last, i, accepted), last, accepted, i + 1).0, start, final), accepted)
      ensures Offs(es, last, accepted, i).1 == Offs(Reactivated(es, last, i, accepted), last, accepted, i + 1).1
    {
      var off := SwitchedOff(es, last, i, accepted);
      var rest := Offs(Reactivated(es, last, i, accepted), last, accepted, i + 1).0;
      assert Offs(es, last, accepted, i).0 == [off] + rest;
      SearchesFreshCons(off, rest, accepted, grown, start, final);
    }

    /** The fresh candidates of the searches over `[x] + rest`: that of `x` grows the pool, then those of `rest`. */
    lemma SearchesFreshCons(x: seq<Edge>, rest: seq<seq<Edge>>, accepted: seq<Solution>, grown: seq<Solution>, start: nat, final: nat)
      requires Shape() && OrderReady(start) && final < n && EdgesWellFormed(x) && AllWellFormed(rest)
      ensures Admit(grown, Result(x, start, final), accepted) + Fresh(Searches(rest, start, final), accepted)
        == grown + Fresh(Searches([x] + rest, start, final), accepted)
    {
      SearchesCons(x, rest, start, final);
      FreshCons(Result(x, start, final), Searches(rest, start, final), accepted, grown);
    }

    /** The searches of a list of edge lists: that of its first, then those of the rest. */
    lemma SearchesCons(x: seq<Edge>, rest: seq<seq<Edge>>, start: nat, final: nat)
      requires Shape() && OrderReady(start) && final < n && EdgesWellFormed(x) && AllWellFormed(rest)
      ensures AllWellFormed([x] + rest)
      ensures Searches([x] + rest, start, final) == [Result(x, start, final)] + Searches(rest, start, final)
    {
      assert ([x] + rest)[1..] == rest;
    }

    /** The pool grown by fresh candidates that are solutions of the strand holds only solutions of the strand. */
    lemma GrownChains(pool: seq<Solution>, cands: seq<Option<Solution>>, accepted: seq<Solution>, start: nat, final: nat)
      requires |key| == n && start < n && final < n
      requires forall p :: p in pool ==> Chain(p, start, final)
      requires forall c :: c in cands && c.Some? ==> Chain(c.value, start, final)
      ensures forall p :: p in pool + Fresh(cands, accepted) ==> Chain(p, start, final)
    {
      FreshMembers(cands, accepted);
      forall p | p in pool + Fresh(cands, accepted)
        ensures Chain(p, start, final)
      {
        if p !in pool {
          assert Some(p) in cands;
        }
      }
    }

    /**
     * The `while` loop of `get_k_shortest_paths` from the accepted solutions
     * `result` and the pool `pool`: while fewer than `kNum` are accepted,
     * deviate from the last one, stop if the pool is then empty, else accept
     * the first top-scoring pooled solution. Returns the accepted solutions,
     * the pool left and the edges.
     */
    function KLoop(es: seq<Edge>, result: seq<Solution>, pool: seq<Solution>, kNum: int, start: nat, final: nat)
      : (r: (seq<Solution>, seq<Solution>, seq<Edge>))
      reads table
      requires Shape() && EdgesWellFormed(es) && OrderReady(start) && final < n && |result| >= 1
      requires (forall p :: p in result ==> Chain(p, start, final)) && (forall p :: p in pool ==> Chain(p, start, final))
      ensures EdgesWellFormed(r.2)
      decreases kNum - |result|, 1
    {
      if |result| >= kNum then (result, pool, es)
      else KRound(es, result, pool, kNum, start, final)
    }

    /**
     * The deviations of one round of that loop from `last`: the pool grown
     * by the fresh candidates of the searches, each a solution of the
     * strand, and the edges after them, each as it was or switched on.
     */
    function Deviations(es: seq<Edge>, last: Solution, result: seq<Solution>, pool: seq<Solution>, start: nat, final: nat)
      : (r: (seq<Solution>, seq<Edge>))
      reads table
      requires Shape() && EdgesWellFormed(es) && OrderReady(start) && final < n && Chain(last, start, final)
      requires forall p :: p in pool ==> Chain(p, start, final)
      ensures forall p :: p in r.0 ==> Chain(p, start, final)
      ensures EdgesWellFormed(r.1) && Restored(r.1, es)
    {
      ChainDeviable(last, start, final);
      var d := Offs(es, last, result, 0);
      var cands := Searches(d.0, start, final);
      GrownChains(pool, cands, result, start, final);
      (pool + Fresh(cands, result), d.1)
    }

    /**
     * One round of that loop: deviate from the last accepted solution, stop
     * if the pool is then empty, else accept the first top-scoring pooled
     * solution and go on with the loop.
     */
    function KRound(es: seq<Edge>, result: seq<Solution>, pool: seq<Solution>, kNum: int, start: nat, final: nat)
      : (r: (seq<Solution>, seq<Solution>, seq<Edge>))
      reads table
      requires Shape() && EdgesWellFormed(es) && OrderReady(start) && final < n && 1 <= |result| < kNum
      requires (forall p :: p in result ==> Chain(p, start, final)) && (forall p :: p in pool ==> Chain(p, start, final))
      ensures EdgesWellFormed(r.2)
      decreases kNum - |result|, 0
    {
      var last := result[|result| - 1];
      assert last in result;
      var d := Deviations(es, last, result, pool, start, final);
      var grown := d.0;
      if grown == [] then (result, grown, d.1)
      else
        var b := FirstMax(grown);
        assert grown[b] in grown;
        KLoop(d.1, result + [grown[b]], RemoveAt(grown, b), kNum, start, final)
    }

    /**
     * What the loop of `get_k_shortest_paths` keeps: the best path comes
     * first; every accepted and every pooled solution is a solution of the
     * strand that the best path does not find identical; nothing left in
     * the pool scores above the last accepted solution.
     */
    ghost predicate Ledger(first: Solution, result: seq<Solution>, pool: seq<Solution>, start: nat, final: nat)
      requires |key| == n && start < n && final < n
    {
      Accepted(first, result, start, final) && 1 <= |result| && Pooled(first, result[|result| - 1], pool, start, final)
    }

    /** The accepted solutions: the best path first, then solutions of the strand that it does not find identical. */
    ghost predicate Accepted(first: Solution, result: seq<Solution>, start: nat, final: nat)
      requires |key| == n && start < n && final < n
    {
      && 1 <= |result| && result[0] == first
      && (forall s :: s in result ==> Chain(s, start, final))
      && (forall i :: 1 <= i < |result| ==> IsIdentical(first.breaks, result[i].breaks, None) != Some(true))
    }

    /** The pool: solutions of the strand that the best path does not find identical, none above `last`'s score. */
    ghost predicate Pooled(first: Solution, last: Solution, pool: seq<Solution>, start: nat, final: nat)
      requires |key| == n && start < n && final < n
    {
      && (forall s :: s in pool ==> Chain(s, start, final))
      && (forall p :: p in pool ==> IsIdentical(first.breaks, p.breaks, None) != Some(true))
      && (forall p :: p in pool ==> p.score <= last.score)
    }

    /** The pool grown from a pool of the ledger holds solutions of the strand that the best path does not find identical. */
    lemma GrownLedger(first: Solution, result: seq<Solution>, pool: seq<Solution>, cands: seq<Option<Solution>>, start: nat, final: nat)
      requires |key| == n && start < n && final < n
      requires Accepted(first, result, start, final) && Pooled(first, result[|result| - 1], pool, start, final)
      requires forall c :: c in cands && c.Some? ==> Chain(c.value, start, final)
      ensures forall p :: p in pool + Fresh(cands, result) ==>
        Chain(p, start, final) && IsIdentical(first.breaks, p.breaks, None) != Some(true)
    {
      GrownChains(pool, cands, result, start, final);
      FreshMembers(cands, result);
      forall p | p in pool + Fresh(cands, result) && p !in pool
        ensures IsIdentical(first.breaks, p.breaks, None) != Some(true)
      {
        assert !Found(result, p);
      }
    }

    /** One accepted solution: the ledger holds again after taking the first top-scoring pooled solution. */
    lemma LedgerAccept(first: Solution, result: seq<Solution>, grown: seq<Solution>, start: nat, final: nat)
      requires |key| == n && start < n && final < n
      requires Accepted(first, result, start, final) && grown != []
      requires forall p :: p in grown ==> Chain(p, start, final) && IsIdentical(first.breaks, p.breaks, None) != Some(true)
      ensures var b := FirstMax(grown);
        Ledger(first, result + [grown[b]], RemoveAt(grown, b), start, final)
    {
      var b := FirstMax(grown);
      var x := grown[b];
      assert x in grown;
      var result' := result + [x];
      assert forall i :: 1 <= i < |result'| ==> result'[i] == if i < |result| then result[i] else x;
      assert Accepted(first, result', start, final);
      var pool' := RemoveAt(grown, b);
      assert forall p :: p in pool' ==> p in grown;
      assert Pooled(first, x, pool', start, final);
    }

    /** From a state that keeps the ledger, the loop ends in one that keeps it. */
    lemma {:induction false} KLoopLedger(es: seq<Edge>, first: Solution, result: seq<Solution>, pool: seq<Solution>,
                                         kNum: int, start: nat, final: nat)
      requires Shape() && EdgesWellFormed(es) && OrderReady(start) && final < n
      requires Ledger(first, result, pool, start, final)
      ensures var r := KLoop(es, result, pool, kNum, start, final);
        Ledger(first, r.0, r.1, start, final)
      decreases kNum - |result|
    {
      if |result| < kNum {
        var last := result[|result| - 1];
        assert last in result;
        ChainDeviable(last, start, final);
        var d := Deviations(es, last, result, pool, start, final);
        var cands := Searches(Offs(es, last, result, 0).0, start, final);
        var grown := d.0;
        if grown != [] {
          var b := FirstMax(grown);
          GrownLedger(first, result, pool, cands, start, final);
          LedgerAccept(first, result, grown, start, final);
          KLoopLedger(d.1, first, result + [grown[b]], RemoveAt(grown, b), kNum, start, final);
        }
      }
    }

    /** The loop only appends to the accepted solutions. */
    lemma {:induction false} KLoopPrefix(es: seq<Edge>, result: seq<Solution>, pool: seq<Solution>,
                                         kNum: int, start: nat, final: nat)
      requires Shape() && EdgesWellFormed(es) && OrderReady(start) && final < n && |result| >= 1
      requires (forall p :: p in result ==> Chain(p, start, final)) && (forall p :: p in pool ==> Chain(p, start, final))
      ensures var r := KLoop(es, result, pool, kNum, start, final);
        |result| <= |r.0| && forall i :: 0 <= i < |result| ==> r.0[i] == result[i]
      decreases kNum - |result|
    {
      if |result| < kNum {
        var last := result[|result| - 1];
        assert last in result;
        var d := Deviations(es, last, result, pool, start, final);
        var grown := d.0;
        if grown != [] {
          var b := FirstMax(grown);
          assert grown[b] in grown;
          var result' := result + [grown[b]];
          KLoopPrefix(d.1, result', RemoveAt(grown, b), kNum, start, final);
          assert forall i :: 0 <= i < |result| ==> result'[i] == result[i];
        }
      }
    }

    /**
     * The loop accepts at most `kNum` solutions (if it runs at all), and ends
     * with an empty pool when it stops short of `kNum`.
     */
    lemma {:induction false} KLoopStops(es: seq<Edge>, result: seq<Solution>, pool: seq<Solution>,
                                        kNum: int, start: nat, final: nat)
      requires Shape() && EdgesWellFormed(es) && OrderReady(start) && final < n && |result| >= 1
      requires (forall p :: p in result ==> Chain(p, start, final)) && (forall p :: p in pool ==> Chain(p, start, final))
      ensures var r := KLoop(es, result, pool, kNum, start, final);
        && |r.0| <= (if kNum < |result| then |result| else kNum)
        && (|r.0| < kNum ==> r.1 == [])
      decreases kNum - |result|
    {
      if |result| < kNum {
        var last := result[|result| - 1];
        assert last in result;
        var d := Deviations(es, last, result, pool, start, final);
        var grown := d.0;
        if grown != [] {
          var b := FirstMax(grown);
          assert grown[b] in grown;
          KLoopStops(d.1, result + [grown[b]], RemoveAt(grown, b), kNum, start, final);
        }
      }
    }

    /** After the loop every edge is as it was or switched on. */
    lemma {:induction false} KLoopRestored(es: seq<Edge>, result: seq<Solution>, pool: seq<Solution>,
                                           kNum: int, start: nat, final: nat)
      requires Shape() && EdgesWellFormed(es) && OrderReady(start) && final < n && |result| >= 1
      requires (forall p :: p in result ==> Chain(p, start, final)) && (forall p :: p in pool ==> Chain(p, start, final))
      ensures Restored(KLoop(es, result, pool, kNum, start, final).2, es)
      decreases kNum - |result|
    {
      if |result| >= kNum {
        assert Restored(es, es);
      } else {
        var last := result[|result| - 1];
        assert last in result;
        var d := Deviations(es, last, result, pool, start, final);
        var grown := d.0;
        if grown != [] {
          var b := FirstMax(grown);
          assert grown[b] in grown;
          KLoopRestored(d.1, result + [grown[b]], RemoveAt(grown, b), kNum, start, final);
          RestoredTrans(KLoop(d.1, result + [grown[b]], RemoveAt(grown, b), kNum, start, final).2, d.1, es);
        }
      }
    }

    /**
     * `get_k_shortest_paths` under the "best" policy on a reset strand with
     * edges `es`: nothing if there is no best path; the best path alone if it
     * scores 0; otherwise the loop from the best path. Returns the accepted
     * solutions, the pool left and the edges.
     */
    function KBest(es: seq<Edge>, start: nat, final: nat, kNum: int): (r: (seq<Solution>, seq<Solution>, seq<Edge>))
      reads table
      requires Shape() && EdgesWellFormed(es) && OrderReady(start) && final < n
    {
      var first := Result(es, start, final);
      ResultChain(es, start, final);
      if first.None? then ([], [], es)
      else if first.value.score == 0 then ([first.value], [], es)
      else KLoop(es, [first.value], [], kNum, start, final)
    }

    /**
     * The k best paths start with the best path: none exactly when there is
     * no best path, and the best path alone when it scores 0.
     */
    lemma KBestFirst(es: seq<Edge>, start: nat, final: nat, kNum: int)
      requires Shape() && EdgesWellFormed(es) && OrderReady(start) && final < n
      ensures var r := KBest(es, start, final, kNum);
        var first := Result(es, start, final);
        && (r.0 == [] <==> first.None?)
        && (first.Some? ==> r.0[0] == first.value)
        && (first.Some? && first.value.score == 0 ==> r.0 == [first.value])
    {
      var first := Result(es, start, final);
      ResultChain(es, start, final);
      if first.Some? && first.value.score != 0 {
        KLoopPrefix(es, [first.value], [], kNum, start, final);
      }
    }

    /**
     * At most `max(kNum, 1)` paths; stopping short of `kNum` after a nonzero
     * best path means the pool ran dry.
     */
    lemma KBestBound(es: seq<Edge>, start: nat, final: nat, kNum: int)
      requires Shape() && EdgesWellFormed(es) && OrderReady(start) && final < n
      ensures var r := KBest(es, start, final, kNum);
        && |r.0| <= (if kNum < 1 then 1 else kNum)
        && (1 <= |r.0| < kNum && r.0[0].score != 0 ==> r.1 == [])
    {
      var first := Result(es, start, final);
      ResultChain(es, start, final);
      if first.Some? && first.value.score != 0 {
        KLoopStops(es, [first.value], [], kNum, start, final);
      }
    }

    /**
     * What the k best paths keep: every accepted path is a solution of the
     * strand; none after the first is identical to it; nothing left in the
     * pool scores above the last accepted path.
     */
    ghost predicate Kept(result: seq<Solution>, pool: seq<Solution>, start: nat, final: nat)
      requires |key| == n && start < n && final < n
    {
      && (forall s :: s in result ==> Chain(s, start, final))
      && (forall i :: 1 <= i < |result| ==> IsIdentical(result[0].breaks, result[i].breaks, None) != Some(true))
      && (forall p :: p in pool ==> 1 <= |result| && p.score <= result[|result| - 1].score)
    }

    /** The k best paths keep `Kept`. */
    lemma KBestLedger(es: seq<Edge>, start: nat, final: nat, kNum: int)
      requires Shape() && EdgesWellFormed(es) && OrderReady(start) && final < n
      ensures var r := KBest(es, start, final, kNum); Kept(r.0, r.1, start, final)
    {
      var first := Result(es, start, final);
      ResultChain(es, start, final);
      if first.Some? && first.value.score != 0 {
        KLoopFromBest(es, first.value, kNum, start, final);
      } else {
        KBestShort(es, start, final, kNum);
      }
    }

    /** Without a best path, or with one scoring 0, at most that path is accepted and the pool is empty. */
    lemma KBestShort(es: seq<Edge>, start: nat, final: nat, kNum: int)
      requires Shape() && EdgesWellFormed(es) && OrderReady(start) && final < n
      requires Result(es, start, final).None? || Result(es, start, final).value.score == 0
      ensures var r := KBest(es, start, final, kNum); |r.0| <= 1 && r.1 == [] && Kept(r.0, r.1, start, final)
    {
      ResultChain(es, start, final);
    }

    /** Every edge ends as it was or switched on. */
    lemma KBestRestored(es: seq<Edge>, start: nat, final: nat, kNum: int)
      requires Shape() && EdgesWellFormed(es) && OrderReady(start) && final < n
      ensures Restored(KBest(es, start, final, kNum).2, es)
    {
      var first := Result(es, start, final);
      ResultChain(es, start, final);
      if first.None? || first.value.score == 0 {
        assert Restored(es, es);
      } else {
        KLoopRestored(es, [first.value], [], kNum, start, final);
      }
    }

    /** When the best path scores above 0, the loop is entered with it alone accepted and an empty pool, and keeps the ledger. */
    lemma KLoopFromBest(es: seq<Edge>, first: Solution, kNum: int, start: nat, final: nat)
      requires Shape() && EdgesWellFormed(es) && OrderReady(start) && final < n
      requires Result(es, start, final) == Some(first) && first.score != 0
      ensures var r := KBest(es, start, final, kNum); Kept(r.0, r.1, start, final)
    {
      ResultChain(es, start, final);
      assert Ledger(first, [first], [], start, final);
      KLoopLedger(es, first, [first], [], kNum, start, final);
      var r := KBest(es, start, final, kNum);
      LedgerFacts(first, r.0, r.1, start, final);
    }

    /** What the ledger says about the accepted solutions and the pool. */
    lemma LedgerFacts(first: Solution, result: seq<Solution>, pool: seq<Solution>, start: nat, final: nat)
      requires |key| == n && start < n && final < n
      requires Ledger(first, result, pool, start, final)
      ensures 1 <= |result| && result[0] == first
      ensures Kept(result, pool, start, final)
    {
    }

    /**
     * Switch off `last`'s `i`-th edge when an accepted solution is identical
     * to `last` on the prefix compared at `i`, once for every such solution.
     */
    method SwitchOff(last: Solution, i: nat, accepted: seq<Solution>) returns (off: bool)
      requires Valid() && i < |last.edges| && last.edges[i].Some? && last.edges[i].value.id < |edges|
      modifies this
      ensures Valid() && off == Blocked(last, i, accepted) && State() == old(State())
      ensures edges == SwitchedOff(old(edges), last, i, accepted)
    {
      var id := last.edges[i].value.id;
      off := false;
      var j := 0;
      while j < |accepted|
        invariant 0 <= j <= |accepted|
        invariant Valid() && State() == old(State())
        invariant edges == if off then old(edges)[id := old(edges)[id].(active := false)] else old(edges)
        invariant off <==> exists j' :: 0 <= j' < j && IsIdentical(last.breaks, accepted[j'].breaks, Some(i)) == Some(true)
      {
        if IsIdentical(last.breaks, accepted[j].breaks, Some(i)) == Some(true) {
          ToggleKeepsWellFormed(edges, edges[id := edges[id].(active := false)]);
          edges := edges[id := edges[id].(active := false)];
          off := true;
        }
        j := j + 1;
      }
    }

    /** Switch edge `id` back on (`edge.active = True`). */
    method SwitchOn(id: nat)
      requires Valid() && id < |edges|
      modifies this
      ensures Valid() && State() == old(State()) && edges == old(edges)[id := old(edges)[id].(active := true)]
    {
      ToggleKeepsWellFormed(edges, edges[id := edges[id].(active := true)]);
      edges := edges[id := edges[id].(active := true)];
    }

    /**
     * One round of the inner loop of `get_k_shortest_paths`: switch off
     * `last`'s `i`-th edge if blocked, search again from a reset state, and
     * switch the edge back on. A candidate found is a solution of the strand
     * that does not use the edge switched off.
     */
    method Deviate(last: Solution, i: nat, accepted: seq<Solution>, start: nat, final: nat)
      returns (cand: Option<Solution>)
      requires Valid() && OrderReady(start) && final < n
      requires Deviable(last) && i < |last.edges| - 1
      modifies this
      ensures Valid() && edges == Reactivated(old(edges), last, i, accepted)
      ensures cand == Result(SwitchedOff(old(edges), last, i, accepted), start, final)
      ensures cand.Some? ==> Chain(cand.value, start, final)
      ensures cand.Some? && Blocked(last, i, accepted) ==>
        forall m :: 0 <= m < |cand.value.edges| && cand.value.edges[m].Some? ==> cand.value.edges[m].value.id != last.edges[i].value.id
    {
      var id := last.edges[i].value.id;
      var off := SwitchOff(last, i, accepted);
      ResetBreakPaths();
      cand := GetShortestPath(start, final);
      if cand.Some? && off {
        OnGraphAvoids(edges, cand.value, id);
      }
      SwitchOffOn(old(edges), last, i, accepted);
      if off {
        SwitchOn(id);
      }
    }

    /** Switching the blocked edge back on gives the edges `Reactivated` describes. */
    lemma SwitchOffOn(es: seq<Edge>, last: Solution, i: nat, accepted: seq<Solution>)
      requires i < |last.edges| && last.edges[i].Some? && last.edges[i].value.id < |es|
      ensures var off := SwitchedOff(es, last, i, accepted);
        var id := last.edges[i].value.id;
        && (Blocked(last, i, accepted) ==> off[id := off[id].(active := true)] == Reactivated(es, last, i, accepted))
        && (!Blocked(last, i, accepted) ==> off == Reactivated(es, last, i, accepted))
    {
      var id := last.edges[i].value.id;
      if Blocked(last, i, accepted) {
        var off := SwitchedOff(es, last, i, accepted);
        assert off[id].(active := true) == es[id].(active := true);
      }
    }

    /** One deviation, its candidate appended to `grown` when no accepted solution finds it identical. */
    method DeviateInto(last: Solution, i: nat, accepted: seq<Solution>, grown: seq<Solution>, start: nat, final: nat)
      returns (cand: Option<Solution>, grown': seq<Solution>)
      requires Valid() && OrderReady(start) && final < n
      requires Deviable(last) && i < |last.edges| - 1
      modifies this
      ensures Valid() && edges == Reactivated(old(edges), last, i, accepted)
      ensures cand == Result(SwitchedOff(old(edges), last, i, accepted), start, final)
      ensures grown' == Admit(grown, cand, accepted)
    {
      cand := Deviate(last, i, accepted, start, final);
      grown' := grown;
      if cand.Some? {
        var isFound := AlreadyFound(accepted, cand.value);
        if !isFound {
          grown' := grown + [cand.value];
        }
      }
    }

    /**
     * The `for i` loop of `get_k_shortest_paths`: one deviation per edge of
     * `last` but its final None entry; every candidate that no accepted
     * solution finds identical is appended to the pool.
     */
    method Diversify(last: Solution, accepted: seq<Solution>, pool: seq<Solution>, start: nat, final: nat)
      returns (grown: seq<Solution>)
      requires Valid() && OrderReady(start) && final < n && Deviable(last)
      modifies this
      ensures Valid() && edges == Offs(old(edges), last, accepted, 0).1
      ensures grown == pool + Fresh(Searches(Offs(old(edges), last, accepted, 0).0, start, final), accepted)
    {
      ghost var es0 := edges;
      grown := pool;
      var i := 0;
      while i < |last.edges| - 1
        invariant 0 <= i <= |last.edges| - 1
        invariant Valid()
        invariant grown + Fresh(Searches(Offs(edges, last, accepted, i).0, start, final), accepted)
          == pool + Fresh(Searches(Offs(es0, last, accepted, 0).0, start, final), accepted)
        invariant Offs(edges, last, accepted, i).1 == Offs(es0, last, accepted, 0).1
      {
        DeviationStep(edges, last, accepted, grown, i, start, final);
        var cand;
        cand, grown := DeviateInto(last, i, accepted, grown, start, final);
        i := i + 1;
      }
      assert Searches([], start, final) == [];
    }

    /**
     * The `while` loop of `get_k_shortest_paths`, entered with the best path
     * accepted; `pool` is what is left of the pool at the end.
     */
    method Accumulate(first: Solution, start: nat, final: nat, kNum: int)
      returns (result: seq<Solution>, pool: seq<Solution>)
      requires Valid() && OrderReady(start) && final < n && Chain(first, start, final)
      modifies this
      ensures Valid() && (result, pool, edges) == KLoop(old(edges), [first], [], kNum, start, final)
    {
      result := [first];
      pool := [];
      while |result| < kNum
        invariant Valid() && |result| >= 1
        invariant (forall p :: p in result ==> Chain(p, start, final)) && (forall p :: p in pool ==> Chain(p, start, final))
        invariant KLoop(edges, result, pool, kNum, start, final) == KLoop(old(edges), [first], [], kNum, start, final)
        decreases kNum - |result|
      {
        var last := result[|result| - 1];
        assert last in result;
        ghost var before := edges;
        var grown := Diversify(last, result, pool, start, final);
        assert (grown, edges) == Deviations(before, last, result, pool, start, final);
        if grown == [] {
          pool := grown;
          break;
        }
        var b := FirstMax(grown);
        assert grown[b] in grown;
        result := result + [grown[b]];
        pool := RemoveAt(grown, b);
      }
    }

    /**
     * `get_k_shortest_paths` under the "best" policy on a reset strand: the
     * best path, then repeatedly the first top-scoring pooled deviation,
     * until `kNum` solutions are accepted, the pool runs dry, or the best
     * path scores 0. Returns the accepted solutions and what is left of the
     * pool; `KBestFirst`, `KBestBound`, `KBestLedger` and `KBestRestored`
     * state what that run promises.
     */
    method GetKShortestPaths(start: nat, final: nat, kNum: int) returns (result: seq<Solution>, pool: seq<Solution>)
      requires Valid() && OrderReady(start) && final < n && ResetState()
      modifies this
      ensures Valid() && (result, pool, edges) == KBest(old(edges), start, final, kNum)
      ensures Restored(edges, old(edges))
      ensures result == [] <==> Result(old(edges), start, final).None?
      ensures result != [] ==> result[0] == Result(old(edges), start, final).value
      ensures forall i :: 1 <= i < |result| ==> IsIdentical(result[0].breaks, result[i].breaks, None) != Some(true)
    {
      KBestFirst(edges, start, final, kNum);
      KBestLedger(edges, start, final, kNum);
      KBestRestored(edges, start, final, kNum);
      var first := GetShortestPath(start, final);
      if first.None? {
        return [], [];
      }
      if first.value.score == 0 {
        return [first.value], [];
      }
      result, pool := Accumulate(first.value, start, final, kNum);
    }
  }
}

/**
 * `AutoBreak.initialize`: for one strand (oligo), walks forward from every
 * break node along the `next_break` links and creates an edge to every node
 * whose break distance lies in [LOWER_BOUND, UPPER_BOUND]; the walk stops at
 * the first node beyond UPPER_BOUND, on returning to the start node, or at the
 * end of a linear strand. Nodes are numbered 0..n-1 in strand order.
 */
module GraphBuild {
  import opened Options
  import opened BreakEdges
  import Segments

  /** One strand: the positions of its break nodes in strand order, circularity and length. */
  datatype Strand = Strand(dist: seq<int>, circular: bool, length: int)

  /** `LOWER_BOUND` and `UPPER_BOUND`. */
  datatype Window = Window(lower: int, upper: int)

  predicate InWindow(w: Window, d: int) {
    w.lower <= d <= w.upper
  }

  /** The `next_break` link: the following node, wrapping to node 0 on a circular strand. */
  function NextBreak(s: Strand, j: nat): (r: Option<nat>)
    ensures r.Some? ==> r.value < |s.dist|
  {
    if j + 1 < |s.dist| then Some(j + 1)
    else if s.circular && |s.dist| > 0 then Some(0)
    else None
  }

  function Distance(s: Strand, i: nat, k: nat): int
    requires i < |s.dist| && k < |s.dist|
  {
    BreakDistance(s.dist[i], s.dist[k], s.circular, s.length)
  }

  /** Steps the walk from `i` may still take once it stands on `j`. */
  function Remaining(s: Strand, i: nat, j: nat): nat
    requires i < |s.dist| && j < |s.dist|
  {
    if !s.circular then |s.dist| - j
    else if j <= i then i - j
    else |s.dist| - j + i
  }

  /**
   * The (target, distance) pairs for which the walk from `i`, standing on
   * `j`, creates edges: the reference definition of the inner while-loop.
   */
  function Walk(s: Strand, w: Window, i: nat, j: nat): seq<(nat, int)>
    requires i < |s.dist| && j < |s.dist|
    decreases Remaining(s, i, j)
  {
    var d := Distance(s, i, j);
    var here := if InWindow(w, d) then [(j, d)] else [];
    if d > w.upper || j == i then here
    else match NextBreak(s, j)
      case None => here
      case Some(j2) => here + Walk(s, w, i, j2)
  }

  /** The targets of node `i`'s edges, in the order they are created. */
  function Targets(s: Strand, w: Window, i: nat): seq<(nat, int)>
    requires i < |s.dist|
  {
    match NextBreak(s, i)
    case None => []
    case Some(j) => Walk(s, w, i, j)
  }

  /** Every walk target is a node of the strand at its break distance, inside the window. */
  lemma {:induction false} WalkInWindow(s: Strand, w: Window, i: nat, j: nat)
    requires i < |s.dist| && j < |s.dist|
    ensures forall p :: p in Walk(s, w, i, j) ==>
      p.0 < |s.dist| && p.1 == Distance(s, i, p.0) && InWindow(w, p.1)
    decreases Remaining(s, i, j)
  {
    var d := Distance(s, i, j);
    if !(d > w.upper || j == i) && NextBreak(s, j).Some? {
      WalkInWindow(s, w, i, NextBreak(s, j).value);
    }
  }

  /**
   * Every edge `initialize` would create for node `i` lies in the window and
   * has the break distance as its length; a target equal to `i` (the loop
   * edge) needs a circular strand.
   */
  lemma TargetsInWindow(s: Strand, w: Window, i: nat)
    requires i < |s.dist|
    ensures forall p :: p in Targets(s, w, i) ==>
      p.0 < |s.dist| && p.1 == Distance(s, i, p.0) && w.lower <= p.1 <= w.upper
    ensures forall p :: p in Targets(s, w, i) && p.0 == i ==> s.circular
  {
    if NextBreak(s, i).Some? {
      WalkInWindow(s, w, i, NextBreak(s, i).value);
      if !s.circular {
        WalkForward(s, w, i, NextBreak(s, i).value);
      }
    }
  }

  lemma {:induction false} WalkForward(s: Strand, w: Window, i: nat, j: nat)
    requires i < j < |s.dist| && !s.circular
    ensures forall p :: p in Walk(s, w, i, j) ==> p.0 > i
    decreases Remaining(s, i, j)
  {
    var d := Distance(s, i, j);
    if !(d > w.upper || j == i) && NextBreak(s, j).Some? {
      WalkForward(s, w, i, NextBreak(s, j).value);
    }
  }

  /**
   * Node positions increase strictly along the strand and, on a circular
   * strand, lie in [0, length): the layout a strand's break list has.
   */
  predicate Ordered(s: Strand) {
    && (forall a, b :: 0 <= a < b < |s.dist| ==> s.dist[a] < s.dist[b])
    && (s.circular ==> forall a :: 0 <= a < |s.dist| ==> 0 <= s.dist[a] < s.length)
  }

  /** How many steps after `i` the walk reaches `k` (`n` for `i` itself on a circular strand). */
  function Rank(s: Strand, i: nat, k: nat): int {
    if k > i then k - i else k + |s.dist| - i
  }

  /** On an ordered strand the break distance grows strictly along the walk. */
  lemma DistanceIncreases(s: Strand, i: nat, k1: nat, k2: nat)
    requires Ordered(s) && i < |s.dist| && k1 < |s.dist| && k2 < |s.dist|
    requires s.circular || (k1 > i && k2 > i)
    requires Rank(s, i, k1) < Rank(s, i, k2)
    ensures Distance(s, i, k1) < Distance(s, i, k2)
  {
    if k1 > i && k2 > i {
      assert s.dist[i] < s.dist[k1] < s.dist[k2];
    } else if k1 > i {
      assert s.dist[k2] <= s.dist[i] by {
        if k2 < i { assert s.dist[k2] < s.dist[i]; }
      }
    } else {
      assert k1 < k2 <= i;
      assert s.dist[k1] < s.dist[k2] <= s.dist[i] by {
        if k2 < i { assert s.dist[k2] < s.dist[i]; }
      }
    }
  }

  lemma {:induction false} WalkExact(s: Strand, w: Window, i: nat, j: nat, k: nat, d: int)
    requires Ordered(s) && i < |s.dist| && j < |s.dist|
    requires s.circular || j > i
    ensures (k, d) in Walk(s, w, i, j) <==>
      k < |s.dist| && (s.circular || k > i) && Rank(s, i, k) >= Rank(s, i, j)
      && d == Distance(s, i, k) && InWindow(w, d)
    decreases Remaining(s, i, j)
  {
    var dj := Distance(s, i, j);
    var rhs := k < |s.dist| && (s.circular || k > i) && Rank(s, i, k) >= Rank(s, i, j)
      && d == Distance(s, i, k) && InWindow(w, d);
    if dj > w.upper {
      if rhs && k != j {
        DistanceIncreases(s, i, j, k);
      }
    } else if j == i {
    } else if NextBreak(s, j).None? {
    } else {
      var j2 := NextBreak(s, j).value;
      assert Rank(s, i, j2) == Rank(s, i, j) + 1;
      WalkExact(s, w, i, j2, k, d);
    }
  }

  /**
   * On an ordered strand the edges of node `i` go to exactly the nodes whose
   * break distance from `i` lies in the window: later nodes on a linear
   * strand; every node, `i` itself included (the loop edge, at distance
   * `length`), on a circular one.
   */
  lemma TargetsExact(s: Strand, w: Window, i: nat, k: nat, d: int)
    requires Ordered(s) && i < |s.dist|
    ensures (k, d) in Targets(s, w, i) <==>
      k < |s.dist| && (s.circular || k > i) && d == Distance(s, i, k) && w.lower <= d <= w.upper
  {
    match NextBreak(s, i)
    case None =>
    case Some(j) =>
      assert Rank(s, i, j) == 1;
      WalkExact(s, w, i, j, k, d);
  }

  /** The edge `initialize` creates for node `i` and target `p`. */
  function MakeEdge(id: nat, i: nat, p: (nat, int), profileOf: (nat, nat) -> Segments.Profile,
                    weightOf: (nat, nat) -> int): Edge
  {
    var prof := profileOf(i, p.0);
    Edge(id, i, p.0, p.1, weightOf(i, p.0), prof.valid, true, i == p.0, prof.dsLengths)
  }

  /** What `initialize` leaves behind for one strand. */
  ghost predicate Built(s: Strand, w: Window, profileOf: (nat, nat) -> Segments.Profile,
                        weightOf: (nat, nat) -> int, upTo: nat,
                        edges: seq<Edge>, breakEdges: seq<seq<nat>>, loopEdge: seq<Option<nat>>,
                        edgeMap: map<(nat, nat), nat>)
    requires upTo <= |s.dist|
  {
    && |breakEdges| == upTo && |loopEdge| == upTo
    && (forall k :: 0 <= k < |edges| ==> edges[k].id == k && edges[k].src < upTo)
    && (forall i :: 0 <= i < upTo ==>
          |breakEdges[i]| == |Targets(s, w, i)|
          && (forall m :: 0 <= m < |breakEdges[i]| ==>
                breakEdges[i][m] < |edges|
                && edges[breakEdges[i][m]] == MakeEdge(breakEdges[i][m], i, Targets(s, w, i)[m], profileOf, weightOf)
                && (i, Targets(s, w, i)[m].0) in edgeMap))
    && (forall i :: 0 <= i < upTo ==>
          (loopEdge[i].Some? <==> exists m :: 0 <= m < |Targets(s, w, i)| && Targets(s, w, i)[m].0 == i)
          && (loopEdge[i].Some? ==>
                (loopEdge[i].value < |edges|
                 && edges[loopEdge[i].value].src == i && edges[loopEdge[i].value].dst == i)))
    && (forall key :: key in edgeMap ==>
          edgeMap[key] < |edges| && edges[edgeMap[key]].src == key.0 && edges[edgeMap[key]].dst == key.1)
  }

  /**
   * `AutoBreak.initialize` for one strand. Returns the created edges (an
   * edge's id is its index), each node's `break_edges` as edge ids, each
   * node's `loop_edge`, the `break_edge_map` keyed by (from, to), and the
   * strand's `dont_break` flag. The flag arrives as `dontBreakIn` (an
   * earlier `set_dont_break_oligos` may have set it); it is set when the
   * strand is shorter than LOWER_BOUND and otherwise kept, never cleared.
   */
  method Initialize(s: Strand, w: Window, profileOf: (nat, nat) -> Segments.Profile, weightOf: (nat, nat) -> int,
                    dontBreakIn: bool)
    returns (edges: seq<Edge>, breakEdges: seq<seq<nat>>, loopEdge: seq<Option<nat>>,
             edgeMap: map<(nat, nat), nat>, dontBreak: bool)
    ensures dontBreak == (dontBreakIn || s.length < w.lower)
    ensures Built(s, w, profileOf, weightOf, |s.dist|, edges, breakEdges, loopEdge, edgeMap)
  {
    dontBreak := dontBreakIn;
    if s.length < w.lower {
      dontBreak := true;
    }
    edges, breakEdges, loopEdge, edgeMap := [], [], [], map[];
    var i := 0;
    while i < |s.dist|
      invariant 0 <= i <= |s.dist|
      invariant Built(s, w, profileOf, weightOf, i, edges, breakEdges, loopEdge, edgeMap)
    {
      var created, loop;
      edges, created, loop, edgeMap := WalkFrom(s, w, profileOf, weightOf, i, edges, edgeMap);
      breakEdges := breakEdges + [created];
      loopEdge := loopEdge + [loop];
      i := i + 1;
    }
  }

  /** What the walk from `i` still creates once its cursor is `next`. */
  function Rest(s: Strand, w: Window, i: nat, next: Option<nat>): seq<(nat, int)>
    requires i < |s.dist| && (next.Some? ==> next.value < |s.dist|)
  {
    if next.Some? then Walk(s, w, i, next.value) else []
  }

  /** The cursor after the walk from `i` has visited `j`. */
  function After(s: Strand, w: Window, i: nat, j: nat): (r: Option<nat>)
    requires i < |s.dist| && j < |s.dist|
    ensures r.Some? ==> r.value < |s.dist|
  {
    if Distance(s, i, j) > w.upper || j == i then None else NextBreak(s, j)
  }

  /** One step of the walk: `j` is a target exactly when it lies in the window. */
  lemma WalkStep(s: Strand, w: Window, i: nat, j: nat)
    requires i < |s.dist| && j < |s.dist|
    ensures InWindow(w, Distance(s, i, j)) ==>
      Walk(s, w, i, j) == [(j, Distance(s, i, j))] + Rest(s, w, i, After(s, w, i, j))
    ensures !InWindow(w, Distance(s, i, j)) ==>
      Walk(s, w, i, j) == Rest(s, w, i, After(s, w, i, j))
  {
  }

  /** Taking one step of the walk moves the visited node, if it is a target, from the rest to the targets done. */
  lemma TargetsAdvance(s: Strand, w: Window, i: nat, done: seq<(nat, int)>, j: nat)
    requires i < |s.dist| && j < |s.dist|
    requires Targets(s, w, i) == done + Walk(s, w, i, j)
    ensures var d := Distance(s, i, j);
      Targets(s, w, i) == (if InWindow(w, d) then done + [(j, d)] else done) + Rest(s, w, i, After(s, w, i, j))
  {
    WalkStep(s, w, i, j);
    var d := Distance(s, i, j);
    var rest := Rest(s, w, i, After(s, w, i, j));
    if InWindow(w, d) {
      assert done + ([(j, d)] + rest) == (done + [(j, d)]) + rest;
    }
  }

  /**
   * The state of the inner loop of `initialize` for node `i` once it has
   * created the edges for the targets `done`.
   */
  ghost predicate WalkState(i: nat, profileOf: (nat, nat) -> Segments.Profile, weightOf: (nat, nat) -> int,
                            edges0: seq<Edge>, map0: map<(nat, nat), nat>, done: seq<(nat, int)>,
                            edges: seq<Edge>, created: seq<nat>, loop: Option<nat>, edgeMap: map<(nat, nat), nat>)
  {
    && |edges| == |edges0| + |done| && |created| == |done|
    && (forall x :: 0 <= x < |edges0| ==> edges[x] == edges0[x])
    && (forall m :: 0 <= m < |done| ==>
          created[m] == |edges0| + m
          && edges[|edges0| + m] == MakeEdge(|edges0| + m, i, done[m], profileOf, weightOf))
    && (forall m :: 0 <= m < |done| ==> (i, done[m].0) in edgeMap)
    && (loop.Some? <==> exists m :: 0 <= m < |done| && done[m].0 == i)
    && (loop.Some? ==> |edges0| <= loop.value < |edges| && done[loop.value - |edges0|].0 == i)
    && (forall key :: key in edgeMap ==>
          edgeMap[key] < |edges| && edges[edgeMap[key]].src == key.0 && edges[edgeMap[key]].dst == key.1)
    && (forall key :: key in map0 ==> key in edgeMap)
  }

  lemma WalkStateStart(i: nat, profileOf: (nat, nat) -> Segments.Profile, weightOf: (nat, nat) -> int,
                       edges0: seq<Edge>, map0: map<(nat, nat), nat>)
    requires forall key :: key in map0 ==>
      map0[key] < |edges0| && edges0[map0[key]].src == key.0 && edges0[map0[key]].dst == key.1
    ensures WalkState(i, profileOf, weightOf, edges0, map0, [], edges0, [], None, map0)
  {
  }

  /** Creating the edge for the next target `(j, d)` keeps the loop state. */
  lemma WalkStateStep(i: nat, profileOf: (nat, nat) -> Segments.Profile, weightOf: (nat, nat) -> int,
                      edges0: seq<Edge>, map0: map<(nat, nat), nat>, done: seq<(nat, int)>,
                      edges: seq<Edge>, created: seq<nat>, loop: Option<nat>, edgeMap: map<(nat, nat), nat>,
                      j: nat, d: int)
    requires WalkState(i, profileOf, weightOf, edges0, map0, done, edges, created, loop, edgeMap)
    ensures WalkState(i, profileOf, weightOf, edges0, map0, done + [(j, d)],
                      edges + [MakeEdge(|edges|, i, (j, d), profileOf, weightOf)], created + [|edges|],
                      if j == i then Some(|edges|) else loop, edgeMap[(i, j) := |edges|])
  {
    WalkEdgesStep(i, profileOf, weightOf, edges0, map0, done, edges, created, loop, edgeMap, j, d);
    WalkMapStep(i, profileOf, weightOf, edges0, map0, done, edges, created, loop, edgeMap, j, d);
    WalkLoopStep(i, profileOf, weightOf, edges0, map0, done, edges, created, loop, edgeMap, j, d);
  }

  /** The new edge is appended after the earlier ones and recorded as created. */
  lemma WalkEdgesStep(i: nat, profileOf: (nat, nat) -> Segments.Profile, weightOf: (nat, nat) -> int,
                      edges0: seq<Edge>, map0: map<(nat, nat), nat>, done: seq<(nat, int)>,
                      edges: seq<Edge>, created: seq<nat>, loop: Option<nat>, edgeMap: map<(nat, nat), nat>,
                      j: nat, d: int)
    requires WalkState(i, profileOf, weightOf, edges0, map0, done, edges, created, loop, edgeMap)
    ensures var done', edges' := done + [(j, d)], edges + [MakeEdge(|edges|, i, (j, d), profileOf, weightOf)];
      && |edges'| == |edges0| + |done'| && |created + [|edges|]| == |done'|
      && (forall x :: 0 <= x < |edges0| ==> edges'[x] == edges0[x])
      && (forall m :: 0 <= m < |done'| ==>
            (created + [|edges|])[m] == |edges0| + m
            && edges'[|edges0| + m] == MakeEdge(|edges0| + m, i, done'[m], profileOf, weightOf))
  {
    var edges' := edges + [MakeEdge(|edges|, i, (j, d), profileOf, weightOf)];
    assert forall x :: 0 <= x < |edges| ==> edges'[x] == edges[x];
  }

  /** The edge map records the new edge under `(i, j)` and keeps every earlier key. */
  lemma WalkMapStep(i: nat, profileOf: (nat, nat) -> Segments.Profile, weightOf: (nat, nat) -> int,
                      edges0: seq<Edge>, map0: map<(nat, nat), nat>, done: seq<(nat, int)>,
                      edges: seq<Edge>, created: seq<nat>, loop: Option<nat>, edgeMap: map<(nat, nat), nat>,
                      j: nat, d: int)
    requires WalkState(i, profileOf, weightOf, edges0, map0, done, edges, created, loop, edgeMap)
    ensures var done', edges', edgeMap' := done + [(j, d)], edges + [MakeEdge(|edges|, i, (j, d), profileOf, weightOf)], edgeMap[(i, j) := |edges|];
      && (forall m :: 0 <= m < |done'| ==> (i, done'[m].0) in edgeMap')
      && (forall key :: key in edgeMap' ==>
            edgeMap'[key] < |edges'| && edges'[edgeMap'[key]].src == key.0 && edges'[edgeMap'[key]].dst == key.1)
      && (forall key :: key in map0 ==> key in edgeMap')
  {
    var edges' := edges + [MakeEdge(|edges|, i, (j, d), profileOf, weightOf)];
    assert forall x :: 0 <= x < |edges| ==> edges'[x] == edges[x];
  }

  /** The loop edge is the new edge exactly when `j` is `i`, or stays what it was. */
  lemma WalkLoopStep(i: nat, profileOf: (nat, nat) -> Segments.Profile, weightOf: (nat, nat) -> int,
                      edges0: seq<Edge>, map0: map<(nat, nat), nat>, done: seq<(nat, int)>,
                      edges: seq<Edge>, created: seq<nat>, loop: Option<nat>, edgeMap: map<(nat, nat), nat>,
                      j: nat, d: int)
    requires WalkState(i, profileOf, weightOf, edges0, map0, done, edges, created, loop, edgeMap)
    ensures var done', edges', loop' := done + [(j, d)], edges + [MakeEdge(|edges|, i, (j, d), profileOf, weightOf)], if j == i then Some(|edges|) else loop;
      && (loop'.Some? <==> exists m :: 0 <= m < |done'| && done'[m].0 == i)
      && (loop'.Some? ==> |edges0| <= loop'.value < |edges'| && done'[loop'.value - |edges0|].0 == i)
  {
    var done' := done + [(j, d)];
    var loop' := if j == i then Some(|edges|) else loop;
    assert forall m :: 0 <= m < |done| ==> done'[m] == done[m];
    if loop'.Some? {
      if j != i {
        var m :| 0 <= m < |done| && done[m].0 == i;
        assert done'[m].0 == i;
      } else {
        assert done'[|done|].0 == i;
      }
    } else {
      assert forall m :: 0 <= m < |done'| ==> done'[m].0 != i by {
        forall m | 0 <= m < |done'| ensures done'[m].0 != i {
          if m < |done| { assert done'[m] == done[m]; }
        }
      }
    }
  }

  /** The finished loop state gives the contract of `WalkFrom`. */
  lemma WalkStateDone(i: nat, profileOf: (nat, nat) -> Segments.Profile, weightOf: (nat, nat) -> int,
                      edges0: seq<Edge>, map0: map<(nat, nat), nat>, all: seq<(nat, int)>,
                      edges: seq<Edge>, created: seq<nat>, loop: Option<nat>, edgeMap: map<(nat, nat), nat>)
    requires WalkState(i, profileOf, weightOf, edges0, map0, all, edges, created, loop, edgeMap)
    requires forall k :: 0 <= k < |edges0| ==> edges0[k].id == k && edges0[k].src < i
    ensures |edges| == |edges0| + |all| && edges[..|edges0|] == edges0
    ensures forall k :: 0 <= k < |edges| ==> edges[k].id == k && edges[k].src <= i
    ensures |created| == |all|
    ensures forall m :: 0 <= m < |created| ==>
      created[m] == |edges0| + m
      && edges[created[m]] == MakeEdge(created[m], i, all[m], profileOf, weightOf)
      && (i, all[m].0) in edgeMap
    ensures loop.Some? <==> exists m :: 0 <= m < |all| && all[m].0 == i
    ensures loop.Some? ==> loop.value < |edges| && edges[loop.value].src == i && edges[loop.value].dst == i
  {
    forall x | 0 <= x < |edges|
      ensures edges[x].id == x && edges[x].src <= i
    {
      if x >= |edges0| {
        assert edges[x] == MakeEdge(x, i, all[x - |edges0|], profileOf, weightOf);
      }
    }
    if loop.Some? {
      assert edges[loop.value] == MakeEdge(loop.value, i, all[loop.value - |edges0|], profileOf, weightOf);
    }
  }

  /**
   * The inner while-loop of `initialize` for node `i`: appends one edge per
   * target, in walk order, records it in `break_edge_map`, and remembers
   * the loop edge.
   */
  method WalkFrom(s: Strand, w: Window, profileOf: (nat, nat) -> Segments.Profile, weightOf: (nat, nat) -> int,
                  i: nat, edges0: seq<Edge>, map0: map<(nat, nat), nat>)
    returns (edges: seq<Edge>, created: seq<nat>, loop: Option<nat>, edgeMap: map<(nat, nat), nat>)
    requires i < |s.dist|
    requires forall k :: 0 <= k < |edges0| ==> edges0[k].id == k && edges0[k].src < i
    requires forall key :: key in map0 ==>
      map0[key] < |edges0| && edges0[map0[key]].src == key.0 && edges0[map0[key]].dst == key.1
    ensures |edges| == |edges0| + |Targets(s, w, i)| && edges[..|edges0|] == edges0
    ensures forall k :: 0 <= k < |edges| ==> edges[k].id == k && edges[k].src <= i
    ensures |created| == |Targets(s, w, i)|
    ensures forall m :: 0 <= m < |created| ==>
      created[m] == |edges0| + m
      && edges[created[m]] == MakeEdge(created[m], i, Targets(s, w, i)[m], profileOf, weightOf)
      && (i, Targets(s, w, i)[m].0) in edgeMap
    ensures loop.Some? <==> exists m :: 0 <= m < |Targets(s, w, i)| && Targets(s, w, i)[m].0 == i
    ensures loop.Some? ==> loop.value < |edges| && edges[loop.value].src == i && edges[loop.value].dst == i
    ensures forall key :: key in edgeMap ==>
      edgeMap[key] < |edges| && edges[edgeMap[key]].src == key.0 && edges[edgeMap[key]].dst == key.1
    ensures forall key :: key in map0 ==> key in edgeMap
  {
    edges, created, loop, edgeMap := WalkLoop(s, w, profileOf, weightOf, i, edges0, map0);
    WalkStateDone(i, profileOf, weightOf, edges0, map0, Targets(s, w, i), edges, created, loop, edgeMap);
  }

  /** The loop of `WalkFrom`, proved against the loop state. */
  method WalkLoop(s: Strand, w: Window, profileOf: (nat, nat) -> Segments.Profile, weightOf: (nat, nat) -> int,
                  i: nat, edges0: seq<Edge>, map0: map<(nat, nat), nat>)
    returns (edges: seq<Edge>, created: seq<nat>, loop: Option<nat>, edgeMap: map<(nat, nat), nat>)
    requires i < |s.dist|
    requires forall key :: key in map0 ==>
      map0[key] < |edges0| && edges0[map0[key]].src == key.0 && edges0[map0[key]].dst == key.1
    ensures WalkState(i, profileOf, weightOf, edges0, map0, Targets(s, w, i), edges, created, loop, edgeMap)
  {
    ghost var done := [];
    edges, created, loop, edgeMap := edges0, [], None, map0;
    WalkStateStart(i, profileOf, weightOf, edges0, map0);
    var next: Option<nat> := NextBreak(s, i);
    while next.Some?
      invariant next.Some? ==> next.value < |s.dist|
      invariant Targets(s, w, i) == done + Rest(s, w, i, next)
      invariant WalkState(i, profileOf, weightOf, edges0, map0, done, edges, created, loop, edgeMap)
      decreases if next.Some? then Remaining(s, i, next.value) + 1 else 0
    {
      var j := next.value;
      var d := Distance(s, i, j);
      TargetsAdvance(s, w, i, done, j);
      if w.lower <= d && d <= w.upper {
        WalkStateStep(i, profileOf, weightOf, edges0, map0, done, edges, created, loop, edgeMap, j, d);
        var e := MakeEdge(|edges|, i, (j, d), profileOf, weightOf);
        created := created + [|edges|];
        if j == i {
          loop := Some(|edges|);
        }
        edgeMap := edgeMap[(i, j) := |edges|];
        edges := edges + [e];
        done := done + [(j, d)];
      }
      if d > w.upper || j == i {
        next := None;
      } else {
        next := NextBreak(s, j);
      }
    }
    assert done + Rest(s, w, i, next) == done;
  }
}

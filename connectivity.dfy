/**
 * Connected clusters of break nodes: `BreakNode.get_connected_breaks` (the
 * next, previous and neighbour break of a node) and
 * `BreakNode.depth_first_search`, which collects every break reachable
 * through those links and marks each one visited.
 */
module Connectivity {
  import opened Options

  /** The three links of a break node; `None` is a missing (Python `None`) link. */
  datatype Links = Links(next: Option<nat>, previous: Option<nat>, neighbor: Option<nat>)

  /**
   * `get_connected_breaks`: the next, previous and neighbour break, in that
   * order, each only when present.
   */
  function ConnectedBreaks(l: Links): (r: seq<nat>)
    ensures |r| <= 3
    ensures forall w :: w in r <==> l.next == Some(w) || l.previous == Some(w) || l.neighbor == Some(w)
    ensures l.next.Some? ==> r[0] == l.next.value
  {
    (if l.next.Some? then [l.next.value] else [])
    + (if l.previous.Some? then [l.previous.value] else [])
    + (if l.neighbor.Some? then [l.neighbor.value] else [])
  }

  /** Every link points at a break of the network. */
  ghost predicate LinksInRange(links: seq<Links>) {
    forall v, w :: 0 <= v < |links| && w in ConnectedBreaks(links[v]) ==> w < |links|
  }

  /** A walk along links: each break is connected to the one before it. */
  ghost predicate IsPath(links: seq<Links>, p: seq<nat>) {
    |p| >= 1
    && (forall i :: 0 <= i < |p| ==> p[i] < |links|)
    && (forall i :: 0 <= i < |p| - 1 ==> p[i + 1] in ConnectedBreaks(links[p[i]]))
  }

  ghost predicate Reachable(links: seq<Links>, a: nat, b: nat) {
    exists p :: IsPath(links, p) && p[0] == a && p[|p| - 1] == b
  }

  /** A set of breaks that contains every break connected to one of its members. */
  ghost predicate Closed(links: seq<Links>, s: set<nat>) {
    forall v :: v in s ==> v < |links| && forall w :: w in ConnectedBreaks(links[v]) ==> w in s
  }

  lemma ReachableSelf(links: seq<Links>, a: nat)
    requires a < |links|
    ensures Reachable(links, a, a)
  {
    assert IsPath(links, [a]);
  }

  lemma ReachableStep(links: seq<Links>, a: nat, v: nat, w: nat)
    requires LinksInRange(links)
    requires Reachable(links, a, v) && v < |links| && w in ConnectedBreaks(links[v])
    ensures Reachable(links, a, w)
  {
    var p :| IsPath(links, p) && p[0] == a && p[|p| - 1] == v;
    var q := p + [w];
    forall i | 0 <= i < |q| ensures q[i] < |links| {
      if i < |p| { assert q[i] == p[i]; }
    }
    forall i | 0 <= i < |q| - 1 ensures q[i + 1] in ConnectedBreaks(links[q[i]]) {
      assert q[i] == p[i];
      if i < |p| - 1 { assert q[i + 1] == p[i + 1]; }
    }
    assert IsPath(links, q) && q[0] == a && q[|q| - 1] == w;
  }

  /** A closed set holding the start of a walk holds the whole walk. */
  lemma {:induction false} PathStaysInClosed(links: seq<Links>, s: set<nat>, p: seq<nat>, i: nat)
    requires Closed(links, s) && IsPath(links, p) && p[0] in s && i < |p|
    ensures p[i] in s
  {
    if i > 0 {
      PathStaysInClosed(links, s, p, i - 1);
    }
  }

  /** The reachable breaks are the least closed set holding the start. */
  lemma ReachableInClosed(links: seq<Links>, s: set<nat>, a: nat, b: nat)
    requires Closed(links, s) && a in s && Reachable(links, a, b)
    ensures b in s
  {
    var p :| IsPath(links, p) && p[0] == a && p[|p| - 1] == b;
    PathStaysInClosed(links, s, p, |p| - 1);
  }

  /** Links that always come in both directions (next/previous, neighbour pairs). */
  ghost predicate Symmetric(links: seq<Links>) {
    forall v, w {:trigger w in ConnectedBreaks(links[v])} ::
      0 <= v < |links| && w in ConnectedBreaks(links[v]) ==> w < |links| && v in ConnectedBreaks(links[w])
  }

  lemma ReachableSymmetric(links: seq<Links>, a: nat, b: nat)
    requires Symmetric(links) && Reachable(links, a, b)
    ensures Reachable(links, b, a)
  {
    var p :| IsPath(links, p) && p[0] == a && p[|p| - 1] == b;
    var n := |p|;
    var q := seq(n, i requires 0 <= i < n => p[n - 1 - i]);
    forall i | 0 <= i < n - 1 ensures q[i + 1] in ConnectedBreaks(links[q[i]]) {
      var j := n - 2 - i;
      assert p[j + 1] in ConnectedBreaks(links[p[j]]);
    }
    assert IsPath(links, q);
  }

  lemma ReachableTransitive(links: seq<Links>, a: nat, b: nat, c: nat)
    requires Reachable(links, a, b) && Reachable(links, b, c)
    ensures Reachable(links, a, c)
  {
    var p :| IsPath(links, p) && p[0] == a && p[|p| - 1] == b;
    var q :| IsPath(links, q) && q[0] == b && q[|q| - 1] == c;
    var r := p + q[1..];
    forall i | 0 <= i < |r| - 1 ensures r[i + 1] in ConnectedBreaks(links[r[i]]) {
      if i < |p| - 1 {
        assert r[i] == p[i] && r[i + 1] == p[i + 1];
      } else {
        assert r[i] == q[i - |p| + 1] && r[i + 1] == q[i - |p| + 2];
      }
    }
    assert IsPath(links, r);
  }

  /**
   * With links in both directions, a search started from any break of a
   * cluster finds the same cluster.
   */
  lemma SameCluster(links: seq<Links>, a: nat, b: nat)
    requires Symmetric(links) && Reachable(links, a, b)
    ensures forall v :: Reachable(links, a, v) <==> Reachable(links, b, v)
  {
    ReachableSymmetric(links, a, b);
    forall v ensures Reachable(links, a, v) <==> Reachable(links, b, v) {
      if Reachable(links, a, v) {
        ReachableTransitive(links, b, a, v);
      }
      if Reachable(links, b, v) {
        ReachableTransitive(links, a, b, v);
      }
    }
  }

  /** `set(connected_breaks) - visited`, as the sequence pushed on the stack. */
  function NotVisited(cs: seq<nat>, seen: set<nat>): (r: seq<nat>)
    ensures forall w :: w in r <==> w in cs && w !in seen
    ensures forall i, j :: 0 <= i < j < |r| ==> r[i] != r[j]
  {
    if cs == [] then []
    else if cs[0] in seen then NotVisited(cs[1..], seen)
    else [cs[0]] + NotVisited(cs[1..], seen + {cs[0]})
  }

  /** The breaks `0 .. n - 1`. */
  function Range(n: nat): (r: set<nat>)
    ensures forall k: nat :: k in r <==> k < n
  {
    if n == 0 then {} else Range(n - 1) + {n - 1}
  }

  /**
   * The state of a search from `start`: what is seen and what is on the
   * stack is reachable, and every link out of a seen break leads to a seen
   * break or to one still on the stack.
   */
  ghost predicate Frontier(links: seq<Links>, start: nat, seen: set<nat>, stack: seq<nat>) {
    LinksInRange(links)
    && (forall v :: v in seen ==> v < |links| && Reachable(links, start, v))
    && StackReachable(links, start, stack)
    && (start in seen || start in stack)
    && LinksCovered(links, seen, stack)
  }

  /** Every break on the stack is a break of the network reachable from `start`. */
  ghost predicate StackReachable(links: seq<Links>, start: nat, stack: seq<nat>) {
    forall i :: 0 <= i < |stack| ==> stack[i] < |links| && Reachable(links, start, stack[i])
  }

  /** Every link out of a seen break leads to a seen break or to one on the stack. */
  ghost predicate LinksCovered(links: seq<Links>, seen: set<nat>, stack: seq<nat>) {
    forall v, w :: v in seen && v < |links| && w in ConnectedBreaks(links[v]) ==> w in seen || w in stack
  }

  /** Popping a break already seen keeps the frontier. */
  lemma FrontierPopSeen(links: seq<Links>, start: nat, seen: set<nat>, stack: seq<nat>)
    requires Frontier(links, start, seen, stack) && |stack| > 0 && stack[|stack| - 1] in seen
    ensures Frontier(links, start, seen, stack[..|stack| - 1])
  {
    var rest := stack[..|stack| - 1];
    forall v, w | v in seen && w in ConnectedBreaks(links[v]) ensures w in seen || w in rest {
      if w !in seen {
        var i :| 0 <= i < |stack| && stack[i] == w;
        assert i < |stack| - 1 && rest[i] == w;
      }
    }
  }

  /** Popping a new break, marking it seen and pushing its unseen links keeps the frontier. */
  lemma FrontierPopNew(links: seq<Links>, start: nat, seen: set<nat>, stack: seq<nat>)
    requires Frontier(links, start, seen, stack) && |stack| > 0 && stack[|stack| - 1] !in seen
    ensures var b := stack[|stack| - 1];
      Frontier(links, start, seen + {b}, stack[..|stack| - 1] + NotVisited(ConnectedBreaks(links[b]), seen + {b}))
  {
    PopNewStack(links, start, seen, stack);
    PopNewLinks(links, seen, stack);
    var b := stack[|stack| - 1];
    if start != b && start !in seen {
      var i :| 0 <= i < |stack| && stack[i] == start;
      assert (stack[..|stack| - 1] + NotVisited(ConnectedBreaks(links[b]), seen + {b}))[i] == start;
    }
  }

  /** After popping a new break, every break on the stack is reachable. */
  lemma PopNewStack(links: seq<Links>, start: nat, seen: set<nat>, stack: seq<nat>)
    requires Frontier(links, start, seen, stack) && |stack| > 0 && stack[|stack| - 1] !in seen
    ensures var b := stack[|stack| - 1];
      StackReachable(links, start, stack[..|stack| - 1] + NotVisited(ConnectedBreaks(links[b]), seen + {b}))
  {
    var b := stack[|stack| - 1];
    var rest := stack[..|stack| - 1];
    var pushed := NotVisited(ConnectedBreaks(links[b]), seen + {b});
    var stack' := rest + pushed;
    forall i | 0 <= i < |stack'| ensures stack'[i] < |links| && Reachable(links, start, stack'[i]) {
      if i < |rest| {
        assert stack'[i] == stack[i];
      } else {
        assert stack'[i] == pushed[i - |rest|];
        assert stack'[i] in ConnectedBreaks(links[b]);
        ReachableStep(links, start, b, stack'[i]);
      }
    }
  }

  /** After popping a new break, every link out of a seen break leads to a seen break or to one on the stack. */
  lemma PopNewLinks(links: seq<Links>, seen: set<nat>, stack: seq<nat>)
    requires LinksCovered(links, seen, stack) && |stack| > 0 && stack[|stack| - 1] < |links|
    ensures var b := stack[|stack| - 1];
      LinksCovered(links, seen + {b}, stack[..|stack| - 1] + NotVisited(ConnectedBreaks(links[b]), seen + {b}))
  {
    var b := stack[|stack| - 1];
    var seen' := seen + {b};
    var rest := stack[..|stack| - 1];
    var pushed := NotVisited(ConnectedBreaks(links[b]), seen');
    assert stack == rest + [b];
    forall v, w | v in seen' && v < |links| && w in ConnectedBreaks(links[v]) ensures w in seen' || w in rest + pushed {
      if w !in seen' && v != b {
        assert w in rest + [b];
      }
    }
  }

  /** With the stack empty, the seen breaks are closed and are exactly the breaks reachable from `start`. */
  lemma FrontierEmpty(links: seq<Links>, start: nat, seen: set<nat>)
    requires Frontier(links, start, seen, [])
    ensures Closed(links, seen)
    ensures forall v :: v in seen <==> Reachable(links, start, v)
  {
    forall v | Reachable(links, start, v) ensures v in seen {
      ReachableInClosed(links, seen, start, v);
    }
  }

  /** The break nodes of a design with their links and `visited` flags. */
  class BreakNetwork {
    const links: seq<Links>
    var visited: seq<bool>

    ghost predicate Valid()
      reads this
    {
      |visited| == |links| && LinksInRange(links)
    }

    constructor(links: seq<Links>)
      requires LinksInRange(links)
      ensures Valid() && this.links == links
      ensures forall k :: 0 <= k < |links| ==> !visited[k]
    {
      this.links := links;
      visited := seq(|links|, _ => false);
    }

    /**
     * `depth_first_search`: pop breaks off a stack, and for each one not seen
     * yet mark it visited and push its connected breaks not seen yet. The
     * result is exactly the set of breaks reachable from `start`, and the
     * visited flags are raised on exactly those.
     */
    method DepthFirstSearch(start: nat) returns (cluster: set<nat>)
      requires Valid() && start < |links|
      modifies this`visited
      ensures Valid()
      ensures forall v :: v in cluster <==> Reachable(links, start, v)
      ensures Closed(links, cluster)
      ensures forall k :: 0 <= k < |links| ==> visited[k] == (old(visited[k]) || k in cluster)
    {
      var seen: set<nat> := {};
      var stack: seq<nat> := [start];
      ReachableSelf(links, start);
      while |stack| > 0
        invariant Valid()
        invariant Frontier(links, start, seen, stack)
        invariant forall k :: 0 <= k < |links| ==> visited[k] == (old(visited[k]) || k in seen)
        decreases Range(|links|) - seen, |stack|
      {
        var b := stack[|stack| - 1];
        if b !in seen {
          FrontierPopNew(links, start, seen, stack);
          seen := seen + {b};
          visited := visited[b := true];
          stack := stack[..|stack| - 1] + NotVisited(ConnectedBreaks(links[b]), seen);
        } else {
          FrontierPopSeen(links, start, seen, stack);
          stack := stack[..|stack| - 1];
        }
      }
      FrontierEmpty(links, start, seen);
      cluster := seen;
    }
  }
}

/** The connectivity analysis at the top of `find_mirror_map`: vertices are
    taken in index order and every vertex not yet visited starts an iterative
    depth-first search with an explicit stack. Adjacency (`v.link_edges` and
    `e.other_vert`) is given as one list of neighbour indices per vertex. */
module Connectivity {

  type Adjacency = seq<seq<nat>>

  /** Every neighbour index names a vertex of the mesh. */
  predicate WellFormed(adj: Adjacency)
  {
    forall v, k :: 0 <= v < |adj| && 0 <= k < |adj[v]| ==> adj[v][k] < |adj|
  }

  /** Edges are unordered: `w` is a neighbour of `v` exactly when `v` is one
      of `w`. */
  predicate Symmetric(adj: Adjacency)
    requires WellFormed(adj)
  {
    forall v, k :: 0 <= v < |adj| && 0 <= k < |adj[v]| ==> v in adj[adj[v][k]]
  }

  /** Every element of `s` is a vertex index below `n`. */
  predicate Below(s: set<nat>, n: nat)
  {
    forall x :: x in s ==> x < n
  }

  lemma {:induction false} CardBelow(s: set<nat>, n: nat)
    requires Below(s, n)
    ensures |s| <= n
  {
    if n > 0 {
      CardBelow(s - {n - 1}, n - 1);
    } else {
      assert s == {};
    }
  }

  predicate Distinct(s: seq<nat>)
  {
    forall i, j :: 0 <= i < j < |s| ==> s[i] != s[j]
  }

  /** The components one after another. */
  function Flatten(cs: seq<seq<nat>>): seq<nat>
  {
    if cs == [] then [] else Flatten(cs[..|cs| - 1]) + cs[|cs| - 1]
  }

  /** `p` is a walk along edges. */
  ghost predicate IsPath(adj: Adjacency, p: seq<nat>)
  {
    && |p| > 0
    && (forall k :: 0 <= k < |p| ==> p[k] < |adj|)
    && (forall k :: 0 <= k < |p| - 1 ==> p[k + 1] in adj[p[k]])
  }

  ghost predicate Reachable(adj: Adjacency, s: nat, t: nat)
  {
    exists p :: IsPath(adj, p) && p[0] == s && p[|p| - 1] == t
  }

  /** `for e in curr.link_edges: if n.index not in visited: stack.append(n)`:
      every neighbour pushed is one not yet visited, and every such
      neighbour is pushed. */
  function Unvisited(ns: seq<nat>, visited: set<nat>): (r: seq<nat>)
    ensures forall k :: 0 <= k < |r| ==> r[k] in ns && r[k] !in visited
    ensures forall w :: w in ns && w !in visited ==> w in r
  {
    if ns == [] then []
    else
      var rest := Unvisited(ns[1..], visited);
      assert forall w :: w in ns[1..] ==> w in ns;
      if ns[0] in visited then rest else [ns[0]] + rest
  }

  /** The `while stack:` loop: pop the top; a vertex seen before is dropped,
      otherwise it is marked visited, appended to the component and its
      unvisited neighbours are pushed. Returns the new `visited` and `comp`. */
  function Explore(adj: Adjacency, stack: seq<nat>, visited: set<nat>, comp: seq<nat>): (r: (set<nat>, seq<nat>))
    requires WellFormed(adj)
    requires forall k :: 0 <= k < |stack| ==> stack[k] < |adj|
    requires Below(visited, |adj|)
    ensures visited <= r.0 && Below(r.0, |adj|)
    decreases |adj| - |visited|, |stack|
  {
    if stack == [] then (visited, comp)
    else
      var curr := stack[|stack| - 1];
      var rest := stack[..|stack| - 1];
      if curr in visited then Explore(adj, rest, visited, comp)
      else
        var seen := visited + {curr};
        CardBelow(seen, |adj|);
        Explore(adj, rest + Unvisited(adj[curr], seen), seen, comp + [curr])
  }

  /** The outer `for v in bm.verts` loop from vertex `v` on. */
  function Sweep(adj: Adjacency, v: nat, visited: set<nat>, comps: seq<seq<nat>>): seq<seq<nat>>
    requires WellFormed(adj) && v <= |adj| && Below(visited, |adj|)
    decreases |adj| - v
  {
    if v == |adj| then comps
    else if v in visited then Sweep(adj, v + 1, visited, comps)
    else
      var r := Explore(adj, [v], visited, []);
      Sweep(adj, v + 1, r.0, comps + [r.1])
  }

  /** The `components` list `find_mirror_map` computes. */
  function Components(adj: Adjacency): seq<seq<nat>>
    requires WellFormed(adj)
  {
    Sweep(adj, 0, {}, [])
  }

  /** Every vertex of `visited` has all its neighbours visited or waiting on
      the stack. */
  ghost predicate Frontier(adj: Adjacency, visited: set<nat>, stack: seq<nat>)
    requires WellFormed(adj) && Below(visited, |adj|)
  {
    forall u, j :: u in visited && 0 <= j < |adj[u]| ==> adj[u][j] in visited || adj[u][j] in stack
  }

  ghost predicate ClosedSet(adj: Adjacency, s: set<nat>)
    requires WellFormed(adj) && Below(s, |adj|)
  {
    forall u, j :: u in s && 0 <= j < |adj[u]| ==> adj[u][j] in s
  }

  /** One search only appends to `comp`, starting with the stack top when
      that is new. */
  lemma {:induction false} ExplorePrefix(adj: Adjacency, stack: seq<nat>, visited: set<nat>, comp: seq<nat>)
    requires WellFormed(adj)
    requires forall k :: 0 <= k < |stack| ==> stack[k] < |adj|
    requires Below(visited, |adj|)
    ensures var comp' := Explore(adj, stack, visited, comp).1;
      && |comp| <= |comp'| && comp'[..|comp|] == comp
      && (stack != [] && stack[|stack| - 1] !in visited ==>
            |comp'| > |comp| && comp'[|comp|] == stack[|stack| - 1])
    decreases |adj| - |visited|, |stack|
  {
    if stack != [] {
      var curr := stack[|stack| - 1];
      var rest := stack[..|stack| - 1];
      if curr in visited {
        ExplorePrefix(adj, rest, visited, comp);
      } else {
        var seen := visited + {curr};
        var next := rest + Unvisited(adj[curr], seen);
        CardBelow(seen, |adj|);
        ExplorePrefix(adj, next, seen, comp + [curr]);
        var comp' := Explore(adj, next, seen, comp + [curr]).1;
        SnocPrefix(comp', comp, curr);
      }
    }
  }

  /** Exactly what one search appends is added to `visited`, and none of it
      was visited before. */
  lemma {:induction false} ExploreSeen(adj: Adjacency, stack: seq<nat>, visited: set<nat>, comp: seq<nat>)
    requires WellFormed(adj)
    requires forall k :: 0 <= k < |stack| ==> stack[k] < |adj|
    requires Below(visited, |adj|)
    ensures var (seen, comp') := Explore(adj, stack, visited, comp);
      && |comp| <= |comp'|
      && (forall x :: x in seen <==> x in visited || x in comp'[|comp|..])
      && (forall k :: |comp| <= k < |comp'| ==> comp'[k] !in visited)
    decreases |adj| - |visited|, |stack|
  {
    ExplorePrefix(adj, stack, visited, comp);
    if stack != [] {
      var curr := stack[|stack| - 1];
      var rest := stack[..|stack| - 1];
      if curr in visited {
        ExploreSeen(adj, rest, visited, comp);
      } else {
        var seen := visited + {curr};
        var next := rest + Unvisited(adj[curr], seen);
        CardBelow(seen, |adj|);
        ExploreSeen(adj, next, seen, comp + [curr]);
        ExplorePrefix(adj, next, seen, comp + [curr]);
        var comp' := Explore(adj, next, seen, comp + [curr]).1;
        SnocPrefix(comp', comp, curr);
        SliceHead(comp', |comp|);
      }
    }
  }

  /** What one search appends are distinct vertices. */
  lemma {:induction false} ExploreDistinct(adj: Adjacency, stack: seq<nat>, visited: set<nat>, comp: seq<nat>)
    requires WellFormed(adj)
    requires forall k :: 0 <= k < |stack| ==> stack[k] < |adj|
    requires Below(visited, |adj|)
    ensures var comp' := Explore(adj, stack, visited, comp).1;
      |comp| <= |comp'| && Distinct(comp'[|comp|..])
    decreases |adj| - |visited|, |stack|
  {
    ExplorePrefix(adj, stack, visited, comp);
    if stack != [] {
      var curr := stack[|stack| - 1];
      var rest := stack[..|stack| - 1];
      if curr in visited {
        ExploreDistinct(adj, rest, visited, comp);
      } else {
        var seen := visited + {curr};
        var next := rest + Unvisited(adj[curr], seen);
        CardBelow(seen, |adj|);
        ExploreDistinct(adj, next, seen, comp + [curr]);
        ExploreSeen(adj, next, seen, comp + [curr]);
        ExplorePrefix(adj, next, seen, comp + [curr]);
        var comp' := Explore(adj, next, seen, comp + [curr]).1;
        var tail := comp'[|comp| + 1..];
        SnocPrefix(comp', comp, curr);
        SliceHead(comp', |comp|);
        assert forall k :: 0 <= k < |tail| ==> tail[k] != curr by {
          forall k | 0 <= k < |tail| ensures tail[k] != curr {
            assert tail[k] == comp'[|comp| + 1 + k];
          }
        }
      }
    }
  }

  /** A sequence that starts with `p + [x]` starts with `p`, followed by `x`. */
  lemma SnocPrefix(s: seq<nat>, p: seq<nat>, x: nat)
    requires |p| + 1 <= |s| && s[..|p| + 1] == p + [x]
    ensures s[..|p|] == p && s[|p|] == x
  {
    assert s[..|p|] == s[..|p| + 1][..|p|];
    assert s[|p|] == s[..|p| + 1][|p|];
  }

  lemma SliceHead(s: seq<nat>, i: nat)
    requires i < |s|
    ensures s[i..] == [s[i]] + s[i + 1..]
  {
  }

  /** The two facts above together. */
  lemma ExploreShape(adj: Adjacency, stack: seq<nat>, visited: set<nat>, comp: seq<nat>)
    requires WellFormed(adj)
    requires forall k :: 0 <= k < |stack| ==> stack[k] < |adj|
    requires Below(visited, |adj|)
    ensures var (seen, comp') := Explore(adj, stack, visited, comp);
      && |comp| <= |comp'| && comp'[..|comp|] == comp
      && visited <= seen && Below(seen, |adj|)
      && (forall x :: x in seen <==> x in visited || x in comp'[|comp|..])
      && (forall k :: |comp| <= k < |comp'| ==> comp'[k] !in visited)
      && Distinct(comp'[|comp|..])
      && (stack != [] && stack[|stack| - 1] !in visited ==>
            |comp'| > |comp| && comp'[|comp|] == stack[|stack| - 1])
  {
    ExplorePrefix(adj, stack, visited, comp);
    ExploreSeen(adj, stack, visited, comp);
    ExploreDistinct(adj, stack, visited, comp);
  }

  /** When the search starts from a visited set whose neighbours are all
      visited or stacked, it ends with a visited set closed under edges. */
  lemma {:induction false} ExploreClosed(adj: Adjacency, stack: seq<nat>, visited: set<nat>, comp: seq<nat>)
    requires WellFormed(adj)
    requires forall k :: 0 <= k < |stack| ==> stack[k] < |adj|
    requires Below(visited, |adj|)
    requires Frontier(adj, visited, stack)
    ensures ClosedSet(adj, Explore(adj, stack, visited, comp).0)
    decreases |adj| - |visited|, |stack|
  {
    ExploreShape(adj, stack, visited, comp);
    if stack != [] {
      var curr := stack[|stack| - 1];
      var rest := stack[..|stack| - 1];
      assert stack == rest + [curr];
      if curr in visited {
        ExploreClosed(adj, rest, visited, comp);
      } else {
        var seen := visited + {curr};
        var next := rest + Unvisited(adj[curr], seen);
        assert Frontier(adj, seen, next) by {
          forall u, j | u in seen && 0 <= j < |adj[u]|
            ensures adj[u][j] in seen || adj[u][j] in next
          {
            if adj[u][j] !in seen {
              if u == curr {
                assert adj[u][j] in Unvisited(adj[curr], seen);
              } else {
                assert adj[u][j] in stack;
              }
            }
          }
        }
        CardBelow(seen, |adj|);
        ExploreClosed(adj, next, seen, comp + [curr]);
      }
    }
  }

  lemma PathStep(adj: Adjacency, s: nat, u: nat, w: nat)
    requires WellFormed(adj) && u < |adj| && Reachable(adj, s, u) && w in adj[u]
    ensures Reachable(adj, s, w)
  {
    var p :| IsPath(adj, p) && p[0] == s && p[|p| - 1] == u;
    var q := p + [w];
    assert q[|q| - 2] == u;
    assert IsPath(adj, q);
  }

  /** Everything the search adds is reachable from a vertex that reaches
      every stack entry. */
  lemma {:induction false} ExploreReach(adj: Adjacency, stack: seq<nat>, visited: set<nat>, comp: seq<nat>, root: nat)
    requires WellFormed(adj)
    requires forall k :: 0 <= k < |stack| ==> stack[k] < |adj|
    requires Below(visited, |adj|)
    requires forall k :: 0 <= k < |stack| ==> Reachable(adj, root, stack[k])
    ensures forall k :: |comp| <= k < |Explore(adj, stack, visited, comp).1| ==>
      Reachable(adj, root, Explore(adj, stack, visited, comp).1[k])
    decreases |adj| - |visited|, |stack|
  {
    ExploreShape(adj, stack, visited, comp);
    if stack != [] {
      var curr := stack[|stack| - 1];
      var rest := stack[..|stack| - 1];
      if curr in visited {
        ExploreReach(adj, rest, visited, comp, root);
      } else {
        var seen := visited + {curr};
        var pushed := Unvisited(adj[curr], seen);
        var next := rest + pushed;
        forall k | 0 <= k < |next| ensures Reachable(adj, root, next[k]) {
          if k >= |rest| {
            assert next[k] == pushed[k - |rest|];
            PathStep(adj, root, curr, next[k]);
          }
        }
        CardBelow(seen, |adj|);
        ExploreReach(adj, next, seen, comp + [curr], root);
        ExploreShape(adj, next, seen, comp + [curr]);
        assert Reachable(adj, root, stack[|stack| - 1]);
      }
    }
  }

  lemma TrivialPath(adj: Adjacency, v: nat)
    requires v < |adj|
    ensures Reachable(adj, v, v)
  {
    assert IsPath(adj, [v]);
  }

  lemma FlattenSnoc(cs: seq<seq<nat>>, c: seq<nat>)
    ensures Flatten(cs + [c]) == Flatten(cs) + c
  {
    assert (cs + [c])[..|cs|] == cs;
  }

  /** The visited vertices are exactly those of the components found so
      far, each listed once, every vertex before `v` among them, and no edge
      leaves them. */
  ghost predicate CoverInv(adj: Adjacency, v: nat, visited: set<nat>, comps: seq<seq<nat>>)
    requires WellFormed(adj)
  {
    && v <= |adj| && Below(visited, |adj|)
    && (forall x :: x in visited <==> x in Flatten(comps))
    && (forall x: nat :: x < v ==> x in visited)
    && Distinct(Flatten(comps))
    && ClosedSet(adj, visited)
  }

  ghost predicate NonEmptyParts(comps: seq<seq<nat>>)
  {
    forall c :: 0 <= c < |comps| ==> |comps[c]| > 0
  }

  /** Every listed vertex index is below `n`. */
  predicate IndicesBelow(n: nat, comps: seq<seq<nat>>)
  {
    forall c, k :: 0 <= c < |comps| && 0 <= k < |comps[c]| ==> comps[c][k] < n
  }

  /** Each component is connected: its first vertex reaches all others. */
  ghost predicate ConnectedParts(adj: Adjacency, comps: seq<seq<nat>>)
  {
    forall c, k :: 0 <= c < |comps| && 0 <= k < |comps[c]| ==> Reachable(adj, comps[c][0], comps[c][k])
  }

  /** On a symmetric adjacency no edge leaves a component. */
  ghost predicate ClosedParts(adj: Adjacency, comps: seq<seq<nat>>)
    requires WellFormed(adj)
  {
    Symmetric(adj) ==>
      forall c, k, j :: 0 <= c < |comps| && 0 <= k < |comps[c]| && comps[c][k] < |adj| && 0 <= j < |adj[comps[c][k]]| ==>
        adj[comps[c][k]][j] in comps[c]
  }

  /** What the sweep keeps true from one vertex to the next. */
  ghost predicate SweepInv(adj: Adjacency, v: nat, visited: set<nat>, comps: seq<seq<nat>>)
    requires WellFormed(adj)
  {
    && CoverInv(adj, v, visited, comps) && NonEmptyParts(comps) && IndicesBelow(|adj|, comps)
    && ConnectedParts(adj, comps) && ClosedParts(adj, comps)
  }

  /** The components partition the vertices: each is non-empty, every
      vertex lies in exactly one, each is connected, and on a symmetric
      adjacency (a mesh's edges) each is closed under edges, so each is a
      connected component of the mesh. */
  ghost predicate IsComponentPartition(adj: Adjacency, comps: seq<seq<nat>>)
    requires WellFormed(adj)
  {
    && NonEmptyParts(comps)
    && IndicesBelow(|adj|, comps)
    && (forall x: nat :: x in Flatten(comps) <==> x < |adj|)
    && Distinct(Flatten(comps))
    && ConnectedParts(adj, comps)
    && ClosedParts(adj, comps)
  }

  /** The facts about one finished search that the sweep needs. */
  ghost predicate NewComponent(adj: Adjacency, v: nat, visited: set<nat>, seen: set<nat>, comp: seq<nat>)
    requires WellFormed(adj)
  {
    && visited <= seen && Below(seen, |adj|)
    && |comp| > 0 && comp[0] == v
    && Distinct(comp)
    && (forall k :: 0 <= k < |comp| ==> comp[k] !in visited)
    && (forall x :: x in seen <==> x in visited || x in comp)
    && ClosedSet(adj, seen)
    && (forall k :: 0 <= k < |comp| ==> Reachable(adj, v, comp[k]))
  }

  lemma SearchFacts(adj: Adjacency, v: nat, visited: set<nat>)
    requires WellFormed(adj) && v < |adj| && v !in visited && Below(visited, |adj|)
    requires ClosedSet(adj, visited)
    ensures var r := Explore(adj, [v], visited, []);
      NewComponent(adj, v, visited, r.0, r.1)
  {
    ExploreShape(adj, [v], visited, []);
    var r := Explore(adj, [v], visited, []);
    assert r.1[0..] == r.1;
    ExploreClosed(adj, [v], visited, []);
    TrivialPath(adj, v);
    ExploreReach(adj, [v], visited, [], v);
  }

  lemma StepCover(adj: Adjacency, v: nat, visited: set<nat>, comps: seq<seq<nat>>, seen: set<nat>, comp: seq<nat>)
    requires WellFormed(adj) && v < |adj| && v !in visited
    requires CoverInv(adj, v, visited, comps) && NewComponent(adj, v, visited, seen, comp)
    ensures CoverInv(adj, v + 1, seen, comps + [comp])
  {
    FlattenSnoc(comps, comp);
    var f := Flatten(comps);
    forall i, j | 0 <= i < j < |f + comp| ensures (f + comp)[i] != (f + comp)[j] {
      if j >= |f| && i < |f| {
        assert (f + comp)[i] in visited;
        assert (f + comp)[j] == comp[j - |f|];
      } else if i >= |f| {
        assert (f + comp)[i] == comp[i - |f|];
        assert (f + comp)[j] == comp[j - |f|];
      }
    }
  }

  lemma StepParts(adj: Adjacency, v: nat, visited: set<nat>, comps: seq<seq<nat>>, seen: set<nat>, comp: seq<nat>)
    requires WellFormed(adj) && CoverInv(adj, v, visited, comps)
    requires NonEmptyParts(comps) && IndicesBelow(|adj|, comps) && ConnectedParts(adj, comps) && ClosedParts(adj, comps)
    requires NewComponent(adj, v, visited, seen, comp)
    ensures NonEmptyParts(comps + [comp]) && IndicesBelow(|adj|, comps + [comp])
    ensures ConnectedParts(adj, comps + [comp]) && ClosedParts(adj, comps + [comp])
  {
    var cs := comps + [comp];
    assert forall c :: 0 <= c < |comps| ==> cs[c] == comps[c];
    assert cs[|comps|] == comp;
    assert forall k :: 0 <= k < |comp| ==> comp[k] in seen;
    if Symmetric(adj) {
      forall k, j | 0 <= k < |comp| && 0 <= j < |adj[comp[k]]|
        ensures adj[comp[k]][j] in comp
      {
        var u, w := comp[k], adj[comp[k]][j];
        assert u in seen && u !in visited;
        assert u in adj[w];
        assert w in visited ==> u in visited;
      }
    }
  }

  lemma SweepStep(adj: Adjacency, v: nat, visited: set<nat>, comps: seq<seq<nat>>)
    requires WellFormed(adj) && v < |adj| && v !in visited
    requires SweepInv(adj, v, visited, comps)
    ensures var r := Explore(adj, [v], visited, []);
      SweepInv(adj, v + 1, r.0, comps + [r.1])
  {
    SearchFacts(adj, v, visited);
    var r := Explore(adj, [v], visited, []);
    StepCover(adj, v, visited, comps, r.0, r.1);
    StepParts(adj, v, visited, comps, r.0, r.1);
  }

  lemma SweepSkip(adj: Adjacency, v: nat, visited: set<nat>, comps: seq<seq<nat>>)
    requires WellFormed(adj) && v < |adj| && v in visited
    requires SweepInv(adj, v, visited, comps)
    ensures SweepInv(adj, v + 1, visited, comps)
  {
    assert CoverInv(adj, v + 1, visited, comps);
  }

  lemma InvAtEnd(adj: Adjacency, visited: set<nat>, comps: seq<seq<nat>>)
    requires WellFormed(adj) && SweepInv(adj, |adj|, visited, comps)
    ensures IsComponentPartition(adj, comps)
  {
  }

  /** The DFS puts every vertex in exactly one component, visiting each once,
      and no component is empty; every component is connected, and closed
      under the mesh's (symmetric) edges. */
  lemma ComponentsPartition(adj: Adjacency)
    requires WellFormed(adj)
    ensures IsComponentPartition(adj, Components(adj))
  {
    var v, visited, comps := 0, {}, [];
    assert ClosedSet(adj, {});
    while v < |adj|
      invariant v <= |adj| && Below(visited, |adj|)
      invariant SweepInv(adj, v, visited, comps)
      invariant Sweep(adj, v, visited, comps) == Components(adj)
    {
      if v in visited {
        SweepSkip(adj, v, visited, comps);
      } else {
        SweepStep(adj, v, visited, comps);
        var r := Explore(adj, [v], visited, []);
        visited, comps := r.0, comps + [r.1];
      }
      v := v + 1;
    }
    InvAtEnd(adj, visited, comps);
  }

  /** One step of the `while stack:` loop on a vertex not yet visited. */
  lemma ExploreStep(adj: Adjacency, stack: seq<nat>, visited: set<nat>, comp: seq<nat>)
    requires WellFormed(adj) && stack != [] && (forall k :: 0 <= k < |stack| ==> stack[k] < |adj|) && Below(visited, |adj|)
    requires stack[|stack| - 1] !in visited
    ensures var curr := stack[|stack| - 1];
      Explore(adj, stack, visited, comp) ==
        Explore(adj, stack[..|stack| - 1] + Unvisited(adj[curr], visited + {curr}), visited + {curr}, comp + [curr])
  {
  }

  /** One step of the `while stack:` loop on a vertex already visited. */
  lemma ExploreSkip(adj: Adjacency, stack: seq<nat>, visited: set<nat>, comp: seq<nat>)
    requires WellFormed(adj) && stack != [] && (forall k :: 0 <= k < |stack| ==> stack[k] < |adj|) && Below(visited, |adj|)
    requires stack[|stack| - 1] in visited
    ensures Explore(adj, stack, visited, comp) == Explore(adj, stack[..|stack| - 1], visited, comp)
  {
  }

  /** The `while stack:` loop for one start vertex, as the source writes it:
      pop, skip or visit, push the unvisited neighbours. */
  method SearchFrom(adj: Adjacency, v: nat, visited0: set<nat>) returns (visited: set<nat>, comp: seq<nat>)
    requires WellFormed(adj) && v < |adj| && Below(visited0, |adj|)
    ensures (visited, comp) == Explore(adj, [v], visited0, [])
  {
    var stack: seq<nat> := [v];
    visited, comp := visited0, [];
    while stack != []
      invariant Below(visited, |adj|)
      invariant forall k :: 0 <= k < |stack| ==> stack[k] < |adj|
      invariant Explore(adj, stack, visited, comp) == Explore(adj, [v], visited0, [])
      decreases |adj| - |visited|, |stack|
    {
      var curr := stack[|stack| - 1];
      ghost var popped, seen, done := stack, visited, comp;
      stack := stack[..|stack| - 1];
      if curr in visited {
        ExploreSkip(adj, popped, seen, done);
        continue;
      }
      ExploreStep(adj, popped, seen, done);
      visited := visited + {curr};
      comp := comp + [curr];
      stack := PushUnvisited(adj[curr], visited, stack);
      CardBelow(visited, |adj|);
    }
  }

  /** The inner `for e in curr.link_edges` loop: pushes the neighbours not
      yet visited, in link order. */
  method PushUnvisited(ns: seq<nat>, visited: set<nat>, stack0: seq<nat>) returns (stack: seq<nat>)
    ensures stack == stack0 + Unvisited(ns, visited)
  {
    stack := stack0;
    for e := 0 to |ns|
      invariant stack == stack0 + Unvisited(ns[..e], visited)
    {
      var n := ns[e];
      UnvisitedSnoc(ns[..e], n, visited);
      PrefixSnoc(ns, e);
      if n !in visited {
        stack := stack + [n];
      }
    }
    assert ns[..|ns|] == ns;
  }

  /** The outer loop over the vertices in index order, as the source writes
      it: every vertex not yet visited starts a new component. */
  method ConnectedComponents(adj: Adjacency) returns (comps: seq<seq<nat>>)
    requires WellFormed(adj)
    ensures comps == Components(adj)
    ensures IsComponentPartition(adj, comps)
  {
    var visited: set<nat> := {};
    comps := [];
    for v := 0 to |adj|
      invariant Below(visited, |adj|)
      invariant Sweep(adj, v, visited, comps) == Components(adj)
    {
      if v in visited {
        continue;
      }
      var comp;
      visited, comp := SearchFrom(adj, v, visited);
      comps := comps + [comp];
    }
    ComponentsPartition(adj);
  }

  lemma PrefixSnoc(s: seq<nat>, e: nat)
    requires e < |s|
    ensures s[..e + 1] == s[..e] + [s[e]]
  {
  }

  lemma {:induction false} UnvisitedSnoc(ns: seq<nat>, n: nat, visited: set<nat>)
    ensures Unvisited(ns + [n], visited) == Unvisited(ns, visited) + (if n in visited then [] else [n])
  {
    if ns == [] {
      assert ns + [n] == [n];
    } else {
      assert (ns + [n])[1..] == ns[1..] + [n];
      UnvisitedSnoc(ns[1..], n, visited);
    }
  }
}

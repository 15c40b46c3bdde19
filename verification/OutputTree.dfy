/** The token sets that `intersect` and `fromFuzzyString` of docs/ui/lunr.js build: trees whose nodes
    are shared by every frame that spells the same path. */
module OutputTree {
  import opened Automata
  import opened Wrappers

  /** The output is a tree: a node is found by its path and only by it. */
  ghost predicate Tree(g: Graph, out: nat, paths: map<nat, string>) {
    && out in paths && paths[out] == ""
    && (forall o :: o in paths ==> o in g && Delta(g, out, paths[o]) == Some(o))
    && (forall o, c :: o in paths && c in g[o].edges ==>
          g[o].edges[c] in paths && paths[g[o].edges[c]] == paths[o] + [c])
  }

  /** Later steps only add nodes and edges and set final flags. */
  ghost predicate Grows(g: Graph, g': Graph) {
    forall id :: id in g ==>
      && id in g' && (g[id].final ==> g'[id].final)
      && forall c :: c in g[id].edges ==> c in g'[id].edges && g'[id].edges[c] == g[id].edges[c]
  }

  lemma {:induction false} DeltaGrows(g: Graph, g': Graph, id: nat, w: string)
    requires Grows(g, g') && Delta(g, id, w).Some?
    ensures Delta(g', id, w) == Delta(g, id, w)
    decreases |w|
  {
    if w != "" {
      DeltaGrows(g, g', g[id].edges[w[0]], w[1..]);
    }
  }

  lemma TreeEdge(g: Graph, out: nat, paths: map<nat, string>, o: nat, c: char)
    requires Tree(g, out, paths) && o in paths && o in g && c in g[o].edges
    ensures g[o].edges[c] in paths && paths[g[o].edges[c]] == paths[o] + [c]
  {
  }

  lemma {:induction false} TreePath(g: Graph, out: nat, paths: map<nat, string>, o: nat, w: string)
    requires Tree(g, out, paths) && o in paths && Delta(g, o, w).Some?
    ensures Delta(g, o, w).value in paths && paths[Delta(g, o, w).value] == paths[o] + w
    decreases |w|
  {
    hide Tree;
    if w == "" {
      assert paths[o] + w == paths[o];
    } else {
      TreeEdge(g, out, paths, o, w[0]);
      TreePath(g, out, paths, g[o].edges[w[0]], w[1..]);
      assert paths[o] + [w[0]] + w[1..] == paths[o] + w;
    }
  }

  /** The output node for c below o: the existing one, or a new one; final if it was or `final` says so. */
  function Link(g: Graph, nextId: nat, o: nat, c: char, final: bool): (nat, Graph)
    requires o in g && (c in g[o].edges ==> g[o].edges[c] in g)
  {
    if c in g[o].edges then
      var next := g[o].edges[c];
      (next, g[next := g[next].(final := g[next].final || final)])
    else
      var g' := g[nextId := Node(final, map[])];
      (nextId, g'[o := g'[o].(edges := g'[o].edges[c := nextId])])
  }

  lemma LinkGrows(g: Graph, nextId: nat, o: nat, c: char, final: bool)
    requires o in g && (c in g[o].edges ==> g[o].edges[c] in g) && nextId !in g
    ensures Grows(g, Link(g, nextId, o, c, final).1)
  {
  }

  lemma LinkEdges(g: Graph, nextId: nat, o: nat, c: char, final: bool)
    requires o in g && (c in g[o].edges ==> g[o].edges[c] in g) && nextId !in g
    ensures var (next, g') := Link(g, nextId, o, c, final);
            && next in g' && o in g' && g'[o].edges == g[o].edges[c := next]
            && (next !in g ==> next == nextId && g'[next].edges == map[])
            && (next in g ==> c in g[o].edges && next == g[o].edges[c])
            && forall x :: x in g && x != o ==> x in g' && g'[x].edges == g[x].edges
  {
  }

  lemma LinkTree(g: Graph, out: nat, paths: map<nat, string>, nextId: nat, o: nat, c: char, final: bool)
    returns (paths': map<nat, string>)
    requires Tree(g, out, paths) && o in paths && nextId !in g
    ensures var (next, g') := Link(g, nextId, o, c, final);
            && paths' == paths[next := paths[o] + [c]] && Tree(g', out, paths')
            && (forall x :: x in paths ==> paths'[x] == paths[x])
            && g'[o].edges == g[o].edges[c := next]
  {
    hide Grows, Link, Delta;
    TreeBelow(g, out, paths, o);
    hide Tree;
    var link := Link(g, nextId, o, c, final);
    var next, g' := link.0, link.1;
    paths' := paths[next := paths[o] + [c]];
    LinkGrows(g, nextId, o, c, final);
    LinkEdges(g, nextId, o, c, final);
    LinkDeltas(g, out, paths, o, c, next, g');
    LinkPaths(g, out, paths, o, c, next, g');
    TreeFrom(g', out, paths');
  }

  lemma TreeBelow(g: Graph, out: nat, paths: map<nat, string>, o: nat)
    requires Tree(g, out, paths) && o in paths
    ensures o in g && out in paths && paths[out] == ""
    ensures forall c :: c in g[o].edges ==> g[o].edges[c] in g && g[o].edges[c] in paths && paths[g[o].edges[c]] == paths[o] + [c]
    ensures forall x :: x in paths ==> x in g
  {
  }

  lemma TreeFrom(g: Graph, out: nat, paths: map<nat, string>)
    requires out in paths && paths[out] == ""
    requires forall o :: o in paths ==> o in g && Delta(g, out, paths[o]) == Some(o)
    requires forall o, c :: o in paths && o in g && c in g[o].edges ==>
               g[o].edges[c] in paths && paths[g[o].edges[c]] == paths[o] + [c]
    ensures Tree(g, out, paths)
  {
  }

  lemma LinkDeltas(g: Graph, out: nat, paths: map<nat, string>, o: nat, c: char, next: nat, g': Graph)
    requires Tree(g, out, paths) && o in paths && Grows(g, g') && next in g' && (next in g ==> next in paths)
    requires o in g' && c in g'[o].edges && g'[o].edges[c] == next
    ensures var paths' := paths[next := paths[o] + [c]];
            forall x :: x in paths' ==> x in g' && Delta(g', out, paths'[x]) == Some(x)
  {
    hide Delta, Grows;
    forall x | x in paths
      ensures x in g' && Delta(g', out, paths[x]) == Some(x)
    {
      DeltaGrows(g, g', out, paths[x]);
      DeltaInGraph(g', out, paths[x]);
    }
    DeltaStep(g', out, paths[o], c);
  }

  lemma LinkPaths(g: Graph, out: nat, paths: map<nat, string>, o: nat, c: char, next: nat, g': Graph)
    requires Tree(g, out, paths) && o in paths && o in g' && next in g' && g'[o].edges == g[o].edges[c := next]
    requires if next in g then c in g[o].edges && next == g[o].edges[c] else g'[next].edges == map[]
    requires forall x :: x in g && x != o ==> x in g' && g'[x].edges == g[x].edges
    ensures var paths' := paths[next := paths[o] + [c]];
            forall x, d :: x in paths' && x in g' && d in g'[x].edges ==>
              g'[x].edges[d] in paths' && paths'[g'[x].edges[d]] == paths'[x] + [d]
  {
    hide Delta;
    var paths' := paths[next := paths[o] + [c]];
    assert forall x :: x in paths ==> x in g && x in paths' && paths'[x] == paths[x];
    forall x, d | x in paths' && x in g' && d in g'[x].edges
      ensures g'[x].edges[d] in paths' && paths'[g'[x].edges[d]] == paths'[x] + [d]
    {
      if !(x == o && d == c) {
        assert x in paths && d in g[x].edges;
      }
    }
  }

  lemma LinkApart(
    g0: Graph, g: Graph, out: nat, paths: map<nat, string>, nextId: nat, o: nat, c: char, final: bool)
    requires Extends(g0, g) && paths.Keys !! g0.Keys && Tree(g, out, paths) && o in paths && nextId !in g
    ensures var (next, g') := Link(g, nextId, o, c, final); Extends(g0, g') && next !in g0
  {
  }

  lemma LinkFinals(g: Graph, nextId: nat, o: nat, c: char, final: bool, x: nat)
    requires o in g && (c in g[o].edges ==> g[o].edges[c] in g) && nextId !in g
    ensures var (next, g') := Link(g, nextId, o, c, final);
            && (x in g' && g'[x].final ==> (x in g && g[x].final) || (x == next && final))
            && next in g' && (final ==> g'[next].final) && o in g' && g'[o].edges == g[o].edges[c := next]
  {
  }

  method LinkNode(arena: Arena, o: nat, c: char, final: bool) returns (next: nat)
    requires arena.Valid() && o in arena.nodes
    modifies arena
    ensures arena.Valid()
    ensures (next, arena.nodes) == Link(old(arena.nodes), old(arena.nextId), o, c, final)
  {
    ghost var g := arena.nodes;
    if c in arena.nodes[o].edges {
      next := arena.nodes[o].edges[c];
      arena.SetFinal(next, arena.nodes[next].final || final);
    } else {
      next := arena.New();
      arena.SetFinal(next, final);
      assert arena.nodes == g[next := Node(final, map[])];
      arena.SetEdge(o, c, next);
    }
  }
}

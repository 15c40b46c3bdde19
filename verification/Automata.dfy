/** Token sets of docs/ui/lunr.js as finite automata.

    A node is an id in an arena; the arena maps the id to the node's final flag and its
    labelled edges. Ids come from one counter shared by every token set. */
module Automata {
  import opened Wrappers

  datatype Node = Node(final: bool, edges: map<char, nat>)

  type Graph = map<nat, Node>

  const WILDCARD := '*'

  const BLANK := Node(false, map[])

  ghost predicate Closed(g: Graph) {
    forall id, c :: id in g && c in g[id].edges ==> g[id].edges[c] in g
  }

  /** g' has every node of g, unchanged. */
  ghost predicate Extends(g: Graph, g': Graph) {
    forall id :: id in g ==> id in g' && g'[id] == g[id]
  }

  /** The node that w leads to from id. */
  function Delta(g: Graph, id: nat, w: string): Option<nat>
    decreases |w|
  {
    if id !in g then None
    else if w == "" then Some(id)
    else if w[0] in g[id].edges then Delta(g, g[id].edges[w[0]], w[1..])
    else None
  }

  /** The words of a token set without wildcards: the right language of id. */
  predicate Accepts(g: Graph, id: nat, w: string)
    decreases |w|
  {
    && id in g
    && if w == "" then g[id].final else w[0] in g[id].edges && Accepts(g, g[id].edges[w[0]], w[1..])
  }

  /** The words of a query token set, whose edge '*' stands for any one character. */
  predicate QueryAccepts(g: Graph, id: nat, w: string)
    decreases |w|
  {
    && id in g
    && if w == "" then g[id].final
       else
         || (w[0] in g[id].edges && QueryAccepts(g, g[id].edges[w[0]], w[1..]))
         || (WILDCARD in g[id].edges && QueryAccepts(g, g[id].edges[WILDCARD], w[1..]))
  }

  ghost predicate SameLanguage(g: Graph, x: nat, y: nat) {
    forall w :: Accepts(g, x, w) == Accepts(g, y, w)
  }

  /** No path from id is longer than depth; for a finite graph, id reaches no cycle. */
  ghost predicate Bounded(g: Graph, id: nat, depth: nat) {
    forall w :: Delta(g, id, w).Some? ==> |w| <= depth
  }

  // ---------- paths ----------

  lemma {:induction false} DeltaConcat(g: Graph, id: nat, u: string, v: string)
    ensures Delta(g, id, u + v) ==
            (if Delta(g, id, u).Some? then Delta(g, Delta(g, id, u).value, v) else None)
    decreases |u|
  {
    if u == "" {
      assert u + v == v;
    } else if id in g && u[0] in g[id].edges {
      assert (u + v)[0] == u[0] && (u + v)[1..] == u[1..] + v;
      DeltaConcat(g, g[id].edges[u[0]], u[1..], v);
    } else {
      assert (u + v)[0] == u[0];
    }
  }

  lemma DeltaStep(g: Graph, id: nat, u: string, c: char)
    ensures Delta(g, id, u + [c]) ==
            (if Delta(g, id, u).Some? && Delta(g, id, u).value in g && c in g[Delta(g, id, u).value].edges
                && g[Delta(g, id, u).value].edges[c] in g
             then Some(g[Delta(g, id, u).value].edges[c]) else None)
  {
    DeltaConcat(g, id, u, [c]);
    if Delta(g, id, u).Some? {
      var n := Delta(g, id, u).value;
      if n in g && c in g[n].edges {
        assert [c][1..] == "";
      }
    }
  }

  lemma {:induction false} DeltaInGraph(g: Graph, id: nat, w: string)
    ensures Delta(g, id, w).Some? ==> Delta(g, id, w).value in g
    decreases |w|
  {
    if id in g && w != "" && w[0] in g[id].edges {
      DeltaInGraph(g, g[id].edges[w[0]], w[1..]);
    }
  }

  lemma {:induction false} AcceptsIsDelta(g: Graph, id: nat, w: string)
    ensures Accepts(g, id, w) <==>
            Delta(g, id, w).Some? && Delta(g, id, w).value in g && g[Delta(g, id, w).value].final
    decreases |w|
  {
    if id in g && w != "" && w[0] in g[id].edges {
      AcceptsIsDelta(g, g[id].edges[w[0]], w[1..]);
    }
  }

  lemma AcceptsConcat(g: Graph, id: nat, u: string, v: string)
    requires Delta(g, id, u).Some?
    ensures Accepts(g, id, u + v) == Accepts(g, Delta(g, id, u).value, v)
  {
    DeltaConcat(g, id, u, v);
    AcceptsIsDelta(g, id, u + v);
    AcceptsIsDelta(g, Delta(g, id, u).value, v);
  }

  // ---------- framing: nodes added elsewhere change no language ----------

  lemma {:induction false} ExtendedDelta(g: Graph, g': Graph, id: nat, w: string)
    requires Closed(g) && Extends(g, g') && id in g
    ensures Delta(g', id, w) == Delta(g, id, w)
    ensures Delta(g, id, w).Some? ==> Delta(g, id, w).value in g
    decreases |w|
  {
    if w != "" && w[0] in g[id].edges {
      ExtendedDelta(g, g', g[id].edges[w[0]], w[1..]);
    }
  }

  lemma ExtendedAccepts(g: Graph, g': Graph, id: nat, w: string)
    requires Closed(g) && Extends(g, g') && id in g
    ensures Accepts(g', id, w) == Accepts(g, id, w)
  {
    ExtendedDelta(g, g', id, w);
    AcceptsIsDelta(g, id, w);
    AcceptsIsDelta(g', id, w);
  }

  lemma {:induction false} ExtendedQueryAccepts(g: Graph, g': Graph, id: nat, w: string)
    requires Closed(g) && Extends(g, g') && id in g
    ensures QueryAccepts(g', id, w) == QueryAccepts(g, id, w)
    decreases |w|
  {
    if w != "" {
      if w[0] in g[id].edges {
        ExtendedQueryAccepts(g, g', g[id].edges[w[0]], w[1..]);
      }
      if WILDCARD in g[id].edges {
        ExtendedQueryAccepts(g, g', g[id].edges[WILDCARD], w[1..]);
      }
    }
  }

  lemma BoundedExtended(g: Graph, g': Graph, id: nat, depth: nat)
    requires Closed(g) && Extends(g, g') && id in g && Bounded(g, id, depth)
    ensures Bounded(g', id, depth)
  {
    forall w | Delta(g', id, w).Some?
      ensures |w| <= depth
    {
      ExtendedDelta(g, g', id, w);
    }
  }

  /** The arena: every token set allocates its nodes here, with ids from one counter. */
  class Arena {
    var nodes: Graph
    var nextId: nat

    ghost predicate Valid()
      reads this
    {
      Closed(nodes) && forall id :: id in nodes ==> id < nextId
    }

    constructor ()
      ensures Valid() && nodes == map[] && nextId == 1
    {
      nodes, nextId := map[], 1;
    }

    /** A new token set node: not final, without edges. */
    method New() returns (id: nat)
      requires Valid()
      modifies this
      ensures Valid() && id == old(nextId) && id !in old(nodes)
      ensures nodes == old(nodes)[id := BLANK] && nextId == old(nextId) + 1
    {
      id := nextId;
      nodes := nodes[id := BLANK];
      nextId := nextId + 1;
    }

    method SetEdge(id: nat, c: char, target: nat)
      requires Valid() && id in nodes && target in nodes
      modifies `nodes
      ensures Valid()
      ensures nodes == old(nodes)[id := old(nodes)[id].(edges := old(nodes)[id].edges[c := target])]
    {
      nodes := nodes[id := nodes[id].(edges := nodes[id].edges[c := target])];
    }

    method SetFinal(id: nat, final: bool)
      requires Valid() && id in nodes
      modifies `nodes
      ensures Valid() && nodes == old(nodes)[id := old(nodes)[id].(final := final)]
    {
      nodes := nodes[id := nodes[id].(final := final)];
    }
  }
}

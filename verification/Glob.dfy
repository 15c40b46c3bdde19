/** TokenSet.fromString of docs/ui/lunr.js: the query automaton of a term with wildcards. */
module Glob {
  import opened Automata

  /** The pattern language: '*' matches any run of characters, every other character itself. */
  predicate Matches(pattern: string, w: string)
    decreases |pattern|, |w|
  {
    if pattern == "" then w == ""
    else if pattern[0] == WILDCARD then
      Matches(pattern[1..], w) || (w != "" && Matches(pattern, w[1..]))
    else w != "" && w[0] == pattern[0] && Matches(pattern[1..], w[1..])
  }

  /** A term without '*' matches itself and nothing else. */
  lemma {:induction false} PlainMatches(pattern: string, w: string)
    requires '*' !in pattern
    ensures Matches(pattern, w) <==> w == pattern
  {
    if pattern != "" && w != "" {
      PlainMatches(pattern[1..], w[1..]);
      assert pattern == [pattern[0]] + pattern[1..] && w == [w[0]] + w[1..];
    }
  }

  lemma {:induction false} LeadingStar(rest: string, w: string)
    ensures Matches("*" + rest, w) <==> exists k :: 0 <= k <= |w| && Matches(rest, w[k..])
    decreases |w|
  {
    assert ("*" + rest)[1..] == rest && w[0..] == w;
    if w != "" {
      LeadingStar(rest, w[1..]);
      if k :| 0 <= k <= |w[1..]| && Matches(rest, w[1..][k..]) {
        assert w[1..][k..] == w[k + 1..];
      }
      if k :| 0 < k <= |w| && Matches(rest, w[k..]) {
        assert w[k..] == w[1..][k - 1..];
      }
    }
  }

  /** Up to its first '*' a term matches itself; then any run of characters, before what the rest matches. */
  lemma {:induction false} StarMatches(plain: string, rest: string, w: string)
    requires '*' !in plain
    ensures Matches(plain + "*" + rest, w) <==>
            plain <= w && exists k :: |plain| <= k <= |w| && Matches(rest, w[k..])
    decreases |plain|
  {
    if plain == "" {
      assert plain + "*" + rest == "*" + rest;
      LeadingStar(rest, w);
    } else {
      assert (plain + "*" + rest)[1..] == plain[1..] + "*" + rest;
      if w != "" && w[0] == plain[0] {
        StarMatches(plain[1..], rest, w[1..]);
        assert plain <= w <==> plain[1..] <= w[1..];
        if k :| |plain[1..]| <= k <= |w[1..]| && Matches(rest, w[1..][k..]) {
          assert w[1..][k..] == w[k + 1..];
        }
        if k :| |plain| <= k <= |w| && Matches(rest, w[k..]) {
          assert w[k..] == w[1..][k - 1..];
        }
      }
    }
  }

  const STAR := [WILDCARD]

  /** The nodes that the remaining characters of the term add, starting from `node`. */
  function Chain(g: Graph, nextId: nat, node: nat, rest: string): (g': Graph)
    requires node in g && Closed(g) && forall id :: id in g ==> id < nextId
    ensures node in g' && Closed(g') && forall id :: id in g && id != node ==> id in g' && g'[id] == g[id]
    decreases |rest|
  {
    if rest == "" then g
    else if rest[0] == WILDCARD then
      Chain(g[node := Node(|rest| == 1, g[node].edges[WILDCARD := node])], nextId, node, rest[1..])
    else
      var grown := g[nextId := Node(|rest| == 1, map[])];
      Chain(grown[node := grown[node].(edges := grown[node].edges[rest[0] := nextId])], nextId + 1, nextId, rest[1..])
  }

  lemma {:induction false} StarMatchesAll(w: string)
    ensures Matches(STAR, w)
    decreases |w|
  {
    assert STAR[1..] == "";
    if w != "" {
      StarMatchesAll(w[1..]);
    }
  }

  lemma {:induction false} StarStar(pattern: string, w: string)
    ensures Matches(STAR + (STAR + pattern), w) == Matches(STAR + pattern, w)
    decreases |w|
  {
    assert (STAR + (STAR + pattern))[1..] == STAR + pattern;
    if w != "" {
      StarStar(pattern, w[1..]);
      assert (STAR + pattern)[1..] == pattern;
    }
  }

  lemma {:induction false} LoopAcceptsAll(g: Graph, node: nat, w: string)
    requires node in g && g[node] == Node(true, map[WILDCARD := node])
    ensures QueryAccepts(g, node, w)
    decreases |w|
  {
    if w != "" {
      LoopAcceptsAll(g, node, w[1..]);
    }
  }

  /** A node with a literal edge, and a loop when a star precedes the literal. */
  lemma {:induction false} LiteralNode(g: Graph, node: nat, next: nat, c: char, star: bool, rest: string, w: string)
    requires c != WILDCARD && node in g
    requires g[node] == Node(false, if star then map[WILDCARD := node, c := next] else map[c := next])
    requires forall v :: QueryAccepts(g, next, v) == Matches(rest, v)
    ensures QueryAccepts(g, node, w) == Matches((if star then STAR else "") + ([c] + rest), w)
    decreases |w|
  {
    var literal := [c] + rest;
    assert literal[1..] == rest;
    if star {
      assert (STAR + literal)[1..] == literal;
      if w != "" {
        LiteralNode(g, node, next, c, star, rest, w[1..]);
      }
    } else {
      assert "" + literal == literal;
    }
  }

  lemma ChainEnd(g: Graph, node: nat, star: bool, w: string)
    requires node in g && g[node] == Node(true, if star then map[WILDCARD := node] else map[])
    ensures QueryAccepts(g, node, w) == Matches(if star then STAR else "", w)
  {
    if star {
      StarMatchesAll(w);
      LoopAcceptsAll(g, node, w);
    }
  }

  lemma ChainLiteral(g: Graph, node: nat, next: nat, rest: string, star: bool, w: string)
    requires node in g && rest != "" && rest[0] != WILDCARD
    requires g[node] == Node(false, if star then map[WILDCARD := node, rest[0] := next] else map[rest[0] := next])
    requires forall v :: QueryAccepts(g, next, v) == Matches(rest[1..], v)
    ensures QueryAccepts(g, node, w) == Matches((if star then STAR else "") + rest, w)
  {
    hide QueryAccepts, Matches;
    assert rest == [rest[0]] + rest[1..];
    LiteralNode(g, node, next, rest[0], star, rest[1..], w);
  }

  lemma LiteralLinked(g: Graph, nextId: nat, node: nat, rest: string) returns (linked: Graph)
    requires node in g && Closed(g) && (forall id :: id in g ==> id < nextId) && rest != "" && rest[0] != WILDCARD
    requires !g[node].final
    ensures Closed(linked) && (forall id :: id in linked ==> id < nextId + 1) && nextId in linked
    ensures linked[nextId] == Node(rest[1..] == "", map[])
    ensures Chain(g, nextId, node, rest) == Chain(linked, nextId + 1, nextId, rest[1..])
    ensures node in Chain(g, nextId, node, rest)
    ensures Chain(g, nextId, node, rest)[node] == Node(false, g[node].edges[rest[0] := nextId])
  {
    var grown := g[nextId := Node(|rest| == 1, map[])];
    linked := grown[node := grown[node].(edges := grown[node].edges[rest[0] := nextId])];
  }

  lemma {:induction false} ChainLanguage(g: Graph, nextId: nat, node: nat, rest: string, star: bool, w: string)
    requires node in g && Closed(g) && forall id :: id in g ==> id < nextId
    requires g[node] == Node(rest == "", if star then map[WILDCARD := node] else map[])
    ensures QueryAccepts(Chain(g, nextId, node, rest), node, w) == Matches((if star then STAR else "") + rest, w)
    decreases |rest|
  {
    hide QueryAccepts, Matches;
    var prefix := if star then STAR else "";
    if rest == "" {
      assert prefix + rest == prefix;
      ChainEnd(g, node, star, w);
    } else if rest[0] == WILDCARD {
      var looped := g[node := Node(|rest| == 1, g[node].edges[WILDCARD := node])];
      assert looped[node].edges == map[WILDCARD := node];
      ChainLanguage(looped, nextId, node, rest[1..], true, w);
      assert rest == STAR + rest[1..];
      if star {
        StarStar(rest[1..], w);
      } else {
        assert prefix + rest == rest;
      }
    } else {
      hide Chain;
      var linked := LiteralLinked(g, nextId, node, rest);
      forall v
        ensures QueryAccepts(Chain(g, nextId, node, rest), nextId, v) == Matches(rest[1..], v)
      {
        ChainLanguage(linked, nextId + 1, nextId, rest[1..], false, v);
        assert "" + rest[1..] == rest[1..];
      }
      ChainLiteral(Chain(g, nextId, node, rest), node, nextId, rest, star, w);
    }
  }

  /** One turn of the loop of `fromString`. */
  method AppendCharacter(arena: Arena, node: nat, str: string, i: nat) returns (next: nat)
    requires arena.Valid() && node in arena.nodes && i < |str|
    modifies arena
    ensures arena.Valid() && next in arena.nodes && (next == node || next !in old(arena.nodes))
    ensures forall id :: id in old(arena.nodes) && id != node ==>
              id in arena.nodes && arena.nodes[id] == old(arena.nodes)[id]
    ensures Chain(arena.nodes, arena.nextId, next, str[i + 1..]) ==
            Chain(old(arena.nodes), old(arena.nextId), node, str[i..])
  {
    ghost var g := arena.nodes;
    assert str[i..][1..] == str[i + 1..];
    var final := i == |str| - 1;
    if str[i] == WILDCARD {
      arena.SetEdge(node, str[i], node);
      arena.SetFinal(node, final);
      next := node;
      assert arena.nodes == g[node := Node(final, g[node].edges[WILDCARD := node])];
    } else {
      next := arena.New();
      arena.SetFinal(next, final);
      ghost var grown := g[next := Node(final, map[])];
      assert arena.nodes == grown;
      arena.SetEdge(node, str[i], next);
    }
  }

  /** TokenSet.fromString. Only the empty term differs from its pattern: its token set accepts
      nothing, not even the empty word. */
  method FromString(arena: Arena, str: string) returns (root: nat)
    requires arena.Valid()
    modifies arena
    ensures arena.Valid() && Extends(old(arena.nodes), arena.nodes) && root in arena.nodes
    ensures forall w :: QueryAccepts(arena.nodes, root, w) <==> str != "" && Matches(str, w)
  {
    root := arena.New();
    ghost var g0, id0 := arena.nodes, arena.nextId;
    var node, i := root, 0;
    assert str[0..] == str;
    while i < |str|
      invariant 0 <= i <= |str| && arena.Valid() && node in arena.nodes && node !in old(arena.nodes)
      invariant Extends(old(arena.nodes), arena.nodes)
      invariant Chain(arena.nodes, arena.nextId, node, str[i..]) == Chain(g0, id0, root, str)
    {
      node := AppendCharacter(arena, node, str, i);
      i := i + 1;
    }
    forall w
      ensures QueryAccepts(arena.nodes, root, w) <==> str != "" && Matches(str, w)
    {
      if str != "" {
        ChainLanguage(g0, id0, root, str, false, w);
        assert "" + str == str;
      }
    }
  }
}

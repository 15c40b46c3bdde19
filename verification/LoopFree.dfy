/**
 * The automata of TokenSet.Builder in docs/ui/lunr.js have no loops, also where the node strings make it
 * take different nodes for one: a registered node leads to nodes registered before it, and stays as it is.
 */
module LoopFree {
  import opened Automata
  import opened BuilderSpec
  import opened Lexicographic
  import opened NodeKeys

  /** No path from these nodes is longer than depth. */
  ghost predicate Shallow(g: Graph, registered: set<nat>, depth: nat) {
    forall id :: id in registered ==> Bounded(g, id, depth)
  }

  ghost predicate Shaped(s: State, alphabet: set<char>) {
    WellFormed(s) && Linked(s) && Shape(s.nodes, SpineOf(s), s.previousWord, s.minimized.Values, alphabet)
  }

  ghost predicate Layered(s: State, alphabet: set<char>) {
    Shaped(s, alphabet) && exists depth: nat :: Shallow(s.nodes, s.minimized.Values, depth)
  }

  /** The next letter of the path leads nowhere yet. */
  ghost predicate Open(s: State) {
    |s.unchecked| < |s.previousWord| ==> Last(s) in s.nodes && s.previousWord[|s.unchecked|] !in s.nodes[Last(s)].edges
  }

  lemma InitialLayered(nodes: Graph, nextId: nat, alphabet: set<char>)
    requires Closed(nodes) && forall id :: id in nodes ==> id < nextId
    ensures Layered(Initial(nodes, nextId), alphabet)
  {
    InitialGood(nodes, nextId, alphabet);
    var s := Initial(nodes, nextId);
    assert s.minimized.Values == {};
    assert Shallow(s.nodes, s.minimized.Values, 0);
  }

  // ---------- registered nodes stay as they are ----------

  ghost predicate ClosedUnder(g: Graph, registered: set<nat>) {
    && (forall id :: id in registered ==> id in g)
    && forall id, c :: id in registered && c in g[id].edges ==> g[id].edges[c] in registered
  }

  lemma {:induction false} SameDelta(g: Graph, g': Graph, registered: set<nat>, id: nat, w: string)
    requires ClosedUnder(g, registered) && id in registered
    requires forall id :: id in registered ==> id in g' && g'[id].edges == g[id].edges
    ensures Delta(g', id, w) == Delta(g, id, w)
    decreases |w|
  {
    if w != "" && w[0] in g[id].edges {
      SameDelta(g, g', registered, g[id].edges[w[0]], w[1..]);
    }
  }

  lemma ShallowElsewhere(g: Graph, g': Graph, registered: set<nat>, depth: nat)
    requires ClosedUnder(g, registered) && Shallow(g, registered, depth)
    requires forall id :: id in registered ==> id in g' && g'[id].edges == g[id].edges
    ensures Shallow(g', registered, depth)
  {
    forall id, w | id in registered && Delta(g', id, w).Some?
      ensures |w| <= depth
    {
      SameDelta(g, g', registered, id, w);
    }
  }

  lemma OneDeeper(g: Graph, id: nat, registered: set<nat>, depth: nat)
    requires id in g && Shallow(g, registered, depth)
    requires forall c :: c in g[id].edges ==> g[id].edges[c] in registered
    ensures Bounded(g, id, depth + 1)
  {
    forall w | Delta(g, id, w).Some?
      ensures |w| <= depth + 1
    {
      if w != "" {
        var next := g[id].edges[w[0]];
        assert Bounded(g, next, depth) && Delta(g, next, w[1..]).Some?;
      }
    }
  }

  lemma Registering(g: Graph, minimized: map<string, nat>, key: string, id: nat, depth: nat)
    requires id in g && key !in minimized && Shallow(g, minimized.Values, depth)
    requires forall c :: c in g[id].edges ==> g[id].edges[c] in minimized.Values
    ensures minimized[key := id].Values == minimized.Values + {id}
    ensures Shallow(g, minimized[key := id].Values, depth + 1)
  {
    ValuesOfNew(minimized, key, id);
    OneDeeper(g, id, minimized.Values, depth);
  }

  // ---------- every step keeps the layers ----------

  lemma ShapeCloses(g: Graph, spine: seq<nat>, path: string, registered: set<nat>, alphabet: set<char>)
    requires Shape(g, spine, path, registered, alphabet)
    ensures ClosedUnder(g, registered)
    ensures forall i :: 0 <= i < |spine| ==> spine[i] in g && spine[i] !in registered
    ensures var edges := g[spine[|spine| - 1]].edges; forall c :: c in edges ==> edges[c] in registered
  {
  }

  lemma LayeredIsLinked(s: State, alphabet: set<char>)
    requires Layered(s, alphabet)
    ensures WellFormed(s) && |s.unchecked| <= |s.previousWord|
  {
  }

  lemma PopLayered(s: State, alphabet: set<char>)
    requires Layered(s, alphabet) && s.unchecked != []
    ensures Layered(Pop(s), alphabet)
  {
    hide Key, Shape, Bounded;
    PopSpine(s);
    var g, spine, path, n := s.nodes, SpineOf(s), s.previousWord, |s.unchecked|;
    var registered, key := s.minimized.Values, Key(g[Last(s)]);
    ShapeCloses(g, spine, path, registered, alphabet);
    var depth: nat :| Shallow(g, registered, depth);
    assert s.unchecked[n - 1] == Unchecked(spine[n - 1], path[n - 1], spine[n]);
    if key in s.minimized {
      assert s.minimized[key] in registered;
      ShapeRedirected(g, spine, path, registered, alphabet, s.minimized[key]);
      ShallowElsewhere(g, Pop(s).nodes, registered, depth);
    } else {
      ShapeRegistered(g, spine, path, registered, alphabet);
      Registering(g, s.minimized, key, spine[n], depth);
    }
  }

  lemma {:induction false} MinimizeLayered(s: State, downTo: nat, alphabet: set<char>)
    requires Layered(s, alphabet) && WellFormed(s)
    ensures Layered(Minimize(s, downTo), alphabet)
    decreases |s.unchecked|
  {
    hide Layered, WellFormed;
    LayeredIsLinked(s, alphabet);
    if |s.unchecked| > downTo {
      PopLayered(s, alphabet);
      MinimizeLayered(Pop(s), downTo, alphabet);
    }
  }

  lemma GrowLayered(s: State, alphabet: set<char>)
    requires Layered(s, alphabet) && Open(s) && |s.unchecked| < |s.previousWord|
    requires s.previousWord[|s.unchecked|] in alphabet
    ensures Layered(Grow(s, s.previousWord[|s.unchecked|]), alphabet)
    ensures Open(Grow(s, s.previousWord[|s.unchecked|]))
  {
    hide Shape, Bounded;
    var g, spine, path, c := s.nodes, SpineOf(s), s.previousWord, s.previousWord[|s.unchecked|];
    var t := Grow(s, c);
    ShapeCloses(g, spine, path, s.minimized.Values, alphabet);
    ShapeGrown(g, spine, path, s.minimized.Values, alphabet, s.nextId);
    GrownNodes(g, Last(s), c, s.nextId);
    assert SpineOf(t) == spine + [s.nextId];
    assert forall i :: 0 <= i <= |s.unchecked| ==> Spine(t, i) == Spine(s, i);
    var depth: nat :| Shallow(g, s.minimized.Values, depth);
    ShallowElsewhere(g, t.nodes, s.minimized.Values, depth);
  }

  lemma {:induction false} GrowAllLayered(s: State, alphabet: set<char>)
    requires Layered(s, alphabet) && Open(s) && WellFormed(s)
    requires forall i :: 0 <= i < |s.previousWord| ==> s.previousWord[i] in alphabet
    ensures Layered(GrowAll(s, s.previousWord[|s.unchecked|..]), alphabet)
    decreases |s.previousWord| - |s.unchecked|
  {
    hide Layered, WellFormed;
    var n := |s.unchecked|;
    LayeredIsLinked(s, alphabet);
    if n < |s.previousWord| {
      GrowLayered(s, alphabet);
      assert s.previousWord[n..][1..] == s.previousWord[n + 1..];
      GrowAllLayered(Grow(s, s.previousWord[n]), alphabet);
    } else {
      assert s.previousWord[n..] == "";
    }
  }

  lemma MarkLayered(s: State, alphabet: set<char>)
    requires Layered(s, alphabet)
    ensures Layered(MarkFinal(s), alphabet)
  {
    hide Shape, Bounded;
    var t := MarkFinal(s);
    SameSpine(s, t);
    ShapeCloses(s.nodes, SpineOf(s), s.previousWord, s.minimized.Values, alphabet);
    ShapeOfEdges(s.nodes, t.nodes, SpineOf(s), s.previousWord, s.minimized.Values, alphabet);
    var depth: nat :| Shallow(s.nodes, s.minimized.Values, depth);
    ShallowElsewhere(s.nodes, t.nodes, s.minimized.Values, depth);
  }

  lemma SwitchLayered(s: State, word: string, alphabet: set<char>)
    requires Layered(s, alphabet) && !Less(word, s.previousWord) && |s.unchecked| == CommonPrefix(word, s.previousWord)
    ensures Layered(s.(previousWord := word), alphabet) && Open(s.(previousWord := word))
  {
    hide Shape, Bounded;
    var t, n := s.(previousWord := word), |s.unchecked|;
    SwitchPath(s.nodes, SpineOf(s), s.previousWord, word, s.minimized.Values, alphabet);
    SameSpine(s, t);
    assert forall i :: 0 <= i < n ==> word[i] == word[..n][i] == s.previousWord[..n][i];
  }

  lemma InsertLayered(s: State, word: string, alphabet: set<char>)
    requires WellFormed(s) && Layered(s, alphabet) && |s.unchecked| == |s.previousWord| && !Less(word, s.previousWord)
    requires forall i :: 0 <= i < |word| ==> word[i] in alphabet
    ensures Layered(Insert(s, word), alphabet)
  {
    hide Layered, Open, Minimize, GrowAll, WellFormed, MarkFinal;
    LayeredIsLinked(s, alphabet);
    var n := CommonPrefix(word, s.previousWord);
    MinimizeLayered(s, n, alphabet);
    Renamed(Minimize(s, n), word);
    var m := Minimize(s, n).(previousWord := word);
    SwitchLayered(Minimize(s, n), word, alphabet);
    GrowAllLayered(m, alphabet);
    MarkLayered(GrowAll(m, word[n..]), alphabet);
  }

  /** The finished automaton has no loops. */
  lemma FinishedIsLoopFree(s: State, alphabet: set<char>)
    requires Layered(s, alphabet) && s.unchecked == []
    ensures s.root in s.nodes && exists depth: nat :: Bounded(s.nodes, s.root, depth)
  {
    hide Shape, Bounded;
    ShapeCloses(s.nodes, SpineOf(s), s.previousWord, s.minimized.Values, alphabet);
    assert SpineOf(s)[0] == s.root;
    var depth: nat :| Shallow(s.nodes, s.minimized.Values, depth);
    OneDeeper(s.nodes, s.root, s.minimized.Values, depth);
  }
}

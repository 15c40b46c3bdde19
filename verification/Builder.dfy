/** TokenSet.Builder and TokenSet.fromArray of docs/ui/lunr.js: the incremental construction of the
    minimal automaton of a sorted word list. */
module Builder {
  import opened Automata
  import opened NodeKeys
  import Lexicographic
  import LoopFree
  import Spec = BuilderSpec

  /** Distinct nodes reachable from root have distinct right languages. */
  ghost predicate Minimal(g: Graph, root: nat) {
    forall p, q :: Delta(g, root, p).Some? && Delta(g, root, q).Some?
                   && SameLanguage(g, Delta(g, root, p).value, Delta(g, root, q).value) ==>
                   Delta(g, root, p) == Delta(g, root, q)
  }

  ghost predicate Sorted(words: seq<string>) {
    forall i :: 0 < i < |words| ==> !Lexicographic.Less(words[i], words[i - 1])
  }

  ghost function WordSet(words: seq<string>): set<string> {
    set w | w in words
  }

  ghost function Alphabet(words: seq<string>): set<char> {
    set w, c | w in words && c in w :: c
  }

  // ---------- what the finished automaton is ----------

  lemma ReachesRegistered(s: Spec.State, words: set<string>, alphabet: set<char>, p: string)
    requires Spec.Good(s, words, alphabet) && s.unchecked == []
    requires p != "" && Delta(s.nodes, s.root, p).Some?
    ensures Delta(s.nodes, s.root, p).value in s.minimized.Values
  {
    assert Spec.SpineOf(s)[0] == s.root;
    Spec.RegisteredStay(s.nodes, s.minimized.Values, s.nodes[s.root].edges[p[0]], p[1..]);
  }

  lemma {:induction false} LongestWord(words: set<string>) returns (longest: string)
    requires words != {}
    ensures longest in words && forall w :: w in words ==> |w| <= |longest|
  {
    longest :| longest in words;
    var rest := words - {longest};
    if rest == {} {
      assert words == {longest};
    } else {
      var other := LongestWord(rest);
      assert forall w :: w in words ==> w == longest || w in rest;
      if |other| > |longest| {
        longest := other;
      }
    }
  }

  /** Every node reached after p still leads to a word, so no path outgrows the words. */
  lemma FinishedIsBounded(s: Spec.State, words: set<string>, alphabet: set<char>) returns (depth: nat)
    requires Spec.Good(s, words, alphabet) && s.unchecked == []
    ensures Bounded(s.nodes, s.root, depth)
    ensures forall w :: w in words ==> |w| <= depth
  {
    depth := 0;
    if words != {} {
      var longest := LongestWord(words);
      depth := |longest|;
    }
    forall p | Delta(s.nodes, s.root, p).Some?
      ensures |p| <= depth
    {
      if p != "" {
        ReachesRegistered(s, words, alphabet, p);
        var w :| Accepts(s.nodes, Delta(s.nodes, s.root, p).value, w);
        AcceptsConcat(s.nodes, s.root, p, w);
        assert p + w in words;
      }
    }
  }

  lemma {:induction false} SameLanguageSameNode(
      g: Graph, minimized: map<string, nat>, x: nat, y: nat, depth: nat)
    requires Spec.Keyed(g, minimized) && Spec.Inhabited(g, minimized.Values)
    requires forall id, c :: id in minimized.Values && id in g && c in g[id].edges ==>
               g[id].edges[c] in minimized.Values
    requires x in minimized.Values && y in minimized.Values && Bounded(g, x, depth) && SameLanguage(g, x, y)
    ensures x == y
    decreases depth
  {
    HaveSameLabels(g, minimized.Values, x, y);
    forall c | c in g[x].edges
      ensures g[x].edges[c] == g[y].edges[c]
    {
      ChildrenAgree(g, minimized.Values, x, y, c, depth);
      SameLanguageSameNode(g, minimized, g[x].edges[c], g[y].edges[c], depth - 1);
    }
    EqualNodes(g[x], g[y]);
    SameKeySameNode(g, minimized, x, y);
  }

  lemma SameKeySameNode(g: Graph, minimized: map<string, nat>, x: nat, y: nat)
    requires Spec.Keyed(g, minimized) && x in minimized.Values && y in minimized.Values && x in g && y in g
    requires g[x] == g[y]
    ensures x == y
  {
    var kx :| kx in minimized && minimized[kx] == x;
    var ky :| ky in minimized && minimized[ky] == y;
  }

  lemma ChildrenAgree(g: Graph, registered: set<nat>, x: nat, y: nat, c: char, depth: nat)
    requires x in g && y in g && c in g[x].edges && c in g[y].edges && g[x].edges[c] in registered
    requires SameLanguage(g, x, y) && Bounded(g, x, depth) && Spec.Inhabited(g, registered)
    ensures SameLanguage(g, g[x].edges[c], g[y].edges[c])
    ensures depth > 0 && Bounded(g, g[x].edges[c], depth - 1)
  {
    var x', y' := g[x].edges[c], g[y].edges[c];
    forall w
      ensures Accepts(g, x', w) == Accepts(g, y', w)
    {
      assert ([c] + w)[1..] == w;
      assert Accepts(g, x, [c] + w) == Accepts(g, y, [c] + w);
    }
    forall w | Delta(g, x', w).Some?
      ensures 1 + |w| <= depth
    {
      assert ([c] + w)[1..] == w;
      assert Delta(g, x, [c] + w).Some?;
    }
    var w :| Accepts(g, x', w);
    AcceptsIsDelta(g, x', w);
  }

  lemma EqualNodes(a: Node, b: Node)
    requires a.final == b.final && a.edges.Keys == b.edges.Keys
    requires forall c :: c in a.edges ==> a.edges[c] == b.edges[c]
    ensures a == b
  {
    assert a.edges == b.edges;
  }

  lemma HaveSameLabels(g: Graph, registered: set<nat>, x: nat, y: nat)
    requires Spec.Inhabited(g, registered) && x in g && y in g
    requires forall c :: c in g[x].edges ==> g[x].edges[c] in registered
    requires forall c :: c in g[y].edges ==> g[y].edges[c] in registered
    requires SameLanguage(g, x, y)
    ensures g[x].edges.Keys == g[y].edges.Keys && g[x].final == g[y].final
  {
    assert Accepts(g, x, "") == Accepts(g, y, "");
    forall c | c in g[x].edges || c in g[y].edges
      ensures c in g[x].edges && c in g[y].edges
    {
      var w :| Accepts(g, if c in g[x].edges then g[x].edges[c] else g[y].edges[c], w);
      assert ([c] + w)[1..] == w;
      assert Accepts(g, x, [c] + w) == Accepts(g, y, [c] + w);
    }
  }

  lemma RootIsAlone(s: Spec.State, words: set<string>, alphabet: set<char>, p: string)
    requires Spec.Good(s, words, alphabet) && s.unchecked == []
    requires p != "" && Delta(s.nodes, s.root, p).Some?
    ensures !SameLanguage(s.nodes, s.root, Delta(s.nodes, s.root, p).value)
  {
    var x := Delta(s.nodes, s.root, p).value;
    ReachesRegistered(s, words, alphabet, p);
    var w :| Accepts(s.nodes, x, w);
    AcceptsConcat(s.nodes, s.root, p, w);
    assert p + w in words;
    var longest := LongestWord(words);
    AcceptsConcat(s.nodes, s.root, p, longest);
    assert p + longest !in words;
    assert Accepts(s.nodes, s.root, longest) && !Accepts(s.nodes, x, longest);
  }

  lemma SameNode(s: Spec.State, words: set<string>, alphabet: set<char>, p: string, q: string, depth: nat)
    requires Spec.Good(s, words, alphabet) && s.unchecked == [] && Bounded(s.nodes, s.root, depth)
    requires p != "" && q != "" && Delta(s.nodes, s.root, p).Some? && Delta(s.nodes, s.root, q).Some?
    requires SameLanguage(s.nodes, Delta(s.nodes, s.root, p).value, Delta(s.nodes, s.root, q).value)
    ensures Delta(s.nodes, s.root, p) == Delta(s.nodes, s.root, q)
  {
    hide Delta, Accepts;
    ReachesRegistered(s, words, alphabet, p);
    ReachesRegistered(s, words, alphabet, q);
    var x, y := Delta(s.nodes, s.root, p).value, Delta(s.nodes, s.root, q).value;
    forall w | Delta(s.nodes, x, w).Some?
      ensures |w| <= depth
    {
      DeltaConcat(s.nodes, s.root, p, w);
    }
    SameLanguageSameNode(s.nodes, s.minimized, x, y, depth);
  }

  lemma FinishedIsMinimal(s: Spec.State, words: set<string>, alphabet: set<char>)
    requires Spec.Good(s, words, alphabet) && s.unchecked == []
    ensures Minimal(s.nodes, s.root)
  {
    var depth := FinishedIsBounded(s, words, alphabet);
    forall p, q | Delta(s.nodes, s.root, p).Some? && Delta(s.nodes, s.root, q).Some?
                  && SameLanguage(s.nodes, Delta(s.nodes, s.root, p).value, Delta(s.nodes, s.root, q).value)
      ensures Delta(s.nodes, s.root, p) == Delta(s.nodes, s.root, q)
    {
      if p == "" && q != "" {
        RootIsAlone(s, words, alphabet, q);
      } else if p != "" && q == "" {
        RootIsAlone(s, words, alphabet, p);
      } else if p != "" && q != "" {
        SameNode(s, words, alphabet, p, q, depth);
      }
    }
  }

  // ---------- the builder object ----------

  method SharedPrefix(u: string, v: string) returns (n: nat)
    ensures n == Spec.CommonPrefix(u, v)
  {
    n := 0;
    while n < |u| && n < |v| && u[n] == v[n]
      invariant n <= |u| && n <= |v| && u[..n] == v[..n]
    {
      n := n + 1;
    }
    LongestCommonPrefix(u, v, n);
  }

  class Builder {
    const arena: Arena
    const root: nat
    var previousWord: string
    var unchecked: seq<Spec.Unchecked>
    var minimized: map<string, nat>

    ghost function State(): Spec.State
      reads this, arena
    {
      Spec.State(arena.nodes, arena.nextId, root, previousWord, unchecked, minimized)
    }

    constructor (arena: Arena)
      requires arena.Valid()
      modifies arena
      ensures this.arena == arena
      ensures State() == Spec.Initial(old(arena.nodes), old(arena.nextId)) && Spec.WellFormed(State())
    {
      var root := arena.New();
      this.arena := arena;
      this.root := root;
      previousWord, unchecked, minimized := "", [], map[];
    }

    /** Replaces or registers the unchecked nodes below depth downTo, deepest first. */
    method Minimize(downTo: nat)
      requires Spec.WellFormed(State())
      modifies this, arena
      ensures Spec.WellFormed(State()) && State() == Spec.Minimize(old(State()), downTo)
    {
      while |unchecked| > downTo
        invariant Spec.WellFormed(State())
        invariant Spec.Minimize(State(), downTo) == Spec.Minimize(old(State()), downTo)
        decreases |unchecked|
      {
        MinimizeLast();
      }
    }

    /** One turn of that loop. */
    method MinimizeLast()
      requires Spec.WellFormed(State()) && unchecked != []
      modifies this, arena
      ensures Spec.WellFormed(State()) && State() == Spec.Pop(old(State()))
    {
      hide Key;
      var node := unchecked[|unchecked| - 1];
      var childKey := ToString(arena.nodes[node.child]);
      if childKey in minimized {
        arena.SetEdge(node.parent, node.letter, minimized[childKey]);
      } else {
        minimized := minimized[childKey := node.child];
      }
      unchecked := unchecked[..|unchecked| - 1];
    }

    /** Adds a word; false stands for the error "Out of order word insertion", which changes nothing. */
    method Insert(word: string) returns (ok: bool)
      requires Spec.WellFormed(State())
      modifies this, arena
      ensures Spec.WellFormed(State())
      ensures ok == !Lexicographic.Less(word, old(previousWord))
      ensures State() == if ok then Spec.Insert(old(State()), word) else old(State())
    {
      hide Spec.Minimize, Spec.GrowAll, Spec.CommonPrefix, Spec.MarkFinal, Spec.WellFormed;
      if Lexicographic.Less(word, previousWord) {
        return false;
      }
      var commonPrefix := SharedPrefix(word, previousWord);
      Minimize(commonPrefix);
      Spec.Renamed(State(), word);
      previousWord := word;
      AppendPath(word, commonPrefix);
      MarkFinal();
      ok := true;
    }

    /** The last node of the path accepts. */
    method MarkFinal()
      requires Spec.WellFormed(State())
      modifies arena
      ensures Spec.WellFormed(State()) && State() == Spec.MarkFinal(old(State()))
    {
      arena.SetFinal(if |unchecked| == 0 then root else unchecked[|unchecked| - 1].child, true);
    }

    /** The loop of `insert` that adds one node for each letter of the word from i0 on. */
    method AppendPath(word: string, i0: nat)
      requires Spec.WellFormed(State()) && i0 <= |word|
      modifies this, arena
      ensures Spec.WellFormed(State()) && State() == Spec.GrowAll(old(State()), word[i0..])
    {
      var node := if |unchecked| == 0 then root else unchecked[|unchecked| - 1].child;
      var i := i0;
      while i < |word|
        invariant i0 <= i <= |word|
        invariant Spec.WellFormed(State()) && node == Spec.Last(State())
        invariant Spec.GrowAll(State(), word[i..]) == Spec.GrowAll(old(State()), word[i0..])
      {
        GrowAllUnfold(State(), word, i);
        node := Append(node, word[i]);
        i := i + 1;
      }
    }

    method Append(node: nat, letter: char) returns (nextNode: nat)
      requires Spec.WellFormed(State()) && node == Spec.Last(State())
      modifies this, arena
      ensures Spec.WellFormed(State()) && State() == Spec.Grow(old(State()), letter)
      ensures nextNode == Spec.Last(State()) && previousWord == old(previousWord)
    {
      nextNode := arena.New();
      arena.SetEdge(node, letter, nextNode);
      unchecked := unchecked + [Spec.Unchecked(node, letter, nextNode)];
    }

    method Finish()
      requires Spec.WellFormed(State())
      modifies this, arena
      ensures Spec.WellFormed(State()) && State() == Spec.Minimize(old(State()), 0)
    {
      Minimize(0);
    }
  }

  lemma GrowAllUnfold(s: Spec.State, word: string, i: nat)
    requires Spec.WellFormed(s) && i < |word|
    ensures Spec.GrowAll(s, word[i..]) == Spec.GrowAll(Spec.Grow(s, word[i]), word[i + 1..])
  {
    assert word[i..][1..] == word[i + 1..];
  }

  lemma {:induction false} LongestCommonPrefix(u: string, v: string, n: nat)
    requires n <= |u| && n <= |v| && u[..n] == v[..n]
    requires n < |u| && n < |v| ==> u[n] != v[n]
    ensures n == Spec.CommonPrefix(u, v)
  {
    if n > 0 {
      assert u[0] == u[..n][0] && v[0] == v[..n][0];
      assert u[..n][1..] == u[1..][..n - 1] && v[..n][1..] == v[1..][..n - 1];
      LongestCommonPrefix(u[1..], v[1..], n - 1);
    }
  }

  /** What a caller relies on: exactly these words, as few nodes as possible, and no cycle. */
  ghost predicate IsMinimalAutomaton(g: Graph, root: nat, words: set<string>) {
    && root in g
    && Spec.HasLanguage(g, root, words)
    && Minimal(g, root)
    && exists depth: nat :: Bounded(g, root, depth)
  }

  lemma FinishedAutomaton(s: Spec.State, words: set<string>, alphabet: set<char>)
    requires Spec.Good(s, words, alphabet) && KeysTell(alphabet, s.root, s.nextId)
    ensures IsMinimalAutomaton(Spec.Minimize(s, 0).nodes, Spec.Minimize(s, 0).root, words)
  {
    Spec.MinimizeGood(s, 0, words, alphabet);
    FinishedIsMinimal(Spec.Minimize(s, 0), words, alphabet);
    var depth := FinishedIsBounded(Spec.Minimize(s, 0), words, alphabet);
  }

  lemma LettersInAlphabet(words: seq<string>, i: nat)
    requires i < |words|
    ensures forall k :: 0 <= k < |words[i]| ==> words[i][k] in Alphabet(words)
  {
    forall k | 0 <= k < |words[i]|
      ensures words[i][k] in Alphabet(words)
    {
      assert words[i] in words && words[i][k] in words[i];
    }
  }

  lemma WordSetNext(words: seq<string>, i: nat)
    requires i < |words|
    ensures WordSet(words[..i + 1]) == WordSet(words[..i]) + {words[i]}
  {
    assert words[..i + 1] == words[..i] + [words[i]];
  }

  lemma NoWords(words: seq<string>)
    ensures WordSet(words[..0]) == {}
  {
  }

  lemma InsertNext(s: Spec.State, words: seq<string>, i: nat, alphabet: set<char>)
    requires i < |words| && Spec.Good(s, WordSet(words[..i]), alphabet)
    requires |s.unchecked| == |s.previousWord|
    requires KeysTell(alphabet, s.root, s.nextId) && Alphabet(words) <= alphabet
    requires !Lexicographic.Less(words[i], s.previousWord)
    ensures Spec.Good(Spec.Insert(s, words[i]), WordSet(words[..i + 1]), alphabet)
  {
    LettersInAlphabet(words, i);
    Spec.InsertGood(s, words[i], WordSet(words[..i]), alphabet);
    WordSetNext(words, i);
  }

  /** As many ids as the letters of the words could take. */
  function Letters(words: seq<string>): nat {
    if words == [] then 0 else Letters(words[..|words| - 1]) + |words[|words| - 1]|
  }

  lemma {:induction false} LettersOfPrefix(words: seq<string>, i: nat)
    requires i <= |words|
    ensures Letters(words[..i]) <= Letters(words)
    decreases |words|
  {
    if i < |words| {
      assert words[..|words| - 1][..i] == words[..i];
      LettersOfPrefix(words[..|words| - 1], i);
    } else {
      assert words[..i] == words;
    }
  }

  /** The states that the builder goes through, and the one it ends in. */
  ghost function BuiltFrom(s: Spec.State, words: seq<string>): (t: Spec.State)
    requires Spec.WellFormed(s)
    ensures Spec.WellFormed(t)
  {
    if words == [] then s else Spec.Insert(BuiltFrom(s, words[..|words| - 1]), words[|words| - 1])
  }

  ghost function Built(nodes: Graph, nextId: nat, words: seq<string>): (t: Spec.State)
    requires Closed(nodes) && forall id :: id in nodes ==> id < nextId
    ensures Spec.WellFormed(t)
  {
    Spec.Minimize(BuiltFrom(Spec.Initial(nodes, nextId), words), 0)
  }

  lemma BuiltNext(s: Spec.State, words: seq<string>, i: nat)
    requires Spec.WellFormed(s) && i < |words|
    ensures BuiltFrom(s, words[..i + 1]) == Spec.Insert(BuiltFrom(s, words[..i]), words[i])
  {
    assert words[..i + 1][..i] == words[..i];
  }

  lemma LettersNext(words: seq<string>, i: nat)
    requires i < |words|
    ensures Letters(words[..i + 1]) == Letters(words[..i]) + |words[i]| && Letters(words[..i + 1]) <= Letters(words)
  {
    assert words[..i + 1][..i] == words[..i];
    LettersOfPrefix(words, i + 1);
  }

  lemma FewerIds(alphabet: set<char>, root: nat, nextId: nat, hi: nat)
    requires KeysTell(alphabet, root, hi) && root <= nextId <= hi
    ensures KeysTell(alphabet, root, nextId)
  {
    if !NoLateDigit(alphabet) {
      SameWidth(nextId, root, hi);
    }
  }

  /** What the states on the way have in common, whatever the node strings do. */
  ghost predicate OnTheWay(t: Spec.State, nodes: Graph, nextId: nat, words: seq<string>, i: nat)
    requires i <= |words|
  {
    && Spec.WellFormed(t) && Spec.OwnNodes(t, nodes)
    && |t.unchecked| == |t.previousWord| && t.previousWord == (if i == 0 then "" else words[i - 1])
    && t.root == nextId <= t.nextId <= nextId + 1 + Letters(words[..i])
  }

  lemma StartOk(nodes: Graph, nextId: nat)
    requires Closed(nodes) && forall id :: id in nodes ==> id < nextId
    ensures var start := Spec.Initial(nodes, nextId);
            && Spec.WellFormed(start) && Spec.OwnNodes(start, nodes)
            && start.root == nextId && start.nextId == nextId + 1 && start.unchecked == [] && start.previousWord == ""
  {
  }

  lemma {:induction false} BuiltOnTheWay(nodes: Graph, nextId: nat, words: seq<string>, i: nat)
    requires Closed(nodes) && forall id :: id in nodes ==> id < nextId
    requires i <= |words|
    ensures OnTheWay(BuiltFrom(Spec.Initial(nodes, nextId), words[..i]), nodes, nextId, words, i)
  {
    hide Spec.Insert, Spec.WellFormed, Spec.OwnNodes, BuiltFrom, Letters;
    var start := Spec.Initial(nodes, nextId);
    StartOk(nodes, nextId);
    NothingBuilt(start, words);
    if i > 0 {
      BuiltOnTheWay(nodes, nextId, words, i - 1);
      var before := BuiltFrom(start, words[..i - 1]);
      BuiltNext(start, words, i - 1);
      LettersNext(words, i - 1);
      Spec.InsertOwn(before, words[i - 1], nodes);
      Spec.InsertIds(before, words[i - 1]);
    }
  }

  lemma {:induction false} BuiltLayered(nodes: Graph, nextId: nat, words: seq<string>, i: nat)
    requires Closed(nodes) && forall id :: id in nodes ==> id < nextId
    requires i <= |words| && Sorted(words)
    ensures LoopFree.Layered(BuiltFrom(Spec.Initial(nodes, nextId), words[..i]), Alphabet(words))
  {
    hide LoopFree.Layered, Spec.Insert, Spec.WellFormed, Spec.OwnNodes, Alphabet, BuiltFrom, Letters;
    var start := Spec.Initial(nodes, nextId);
    StartOk(nodes, nextId);
    NothingBuilt(start, words);
    if i == 0 {
      LoopFree.InitialLayered(nodes, nextId, Alphabet(words));
    } else {
      BuiltLayered(nodes, nextId, words, i - 1);
      BuiltOnTheWay(nodes, nextId, words, i - 1);
      LettersInAlphabet(words, i - 1);
      LoopFree.InsertLayered(BuiltFrom(start, words[..i - 1]), words[i - 1], Alphabet(words));
      BuiltNext(start, words, i - 1);
    }
  }

  /** Whatever the node strings do, the token set has no loops. */
  lemma BuiltIsLoopFree(nodes: Graph, nextId: nat, words: seq<string>)
    requires Closed(nodes) && (forall id :: id in nodes ==> id < nextId) && Sorted(words)
    ensures var g := Built(nodes, nextId, words).nodes; nextId in g && exists depth: nat :: Bounded(g, nextId, depth)
  {
    hide LoopFree.Layered, Spec.Insert, Spec.WellFormed, Spec.OwnNodes, Spec.Minimize, Letters, Bounded;
    StartOk(nodes, nextId);
    var last := BuiltFrom(Spec.Initial(nodes, nextId), words);
    assert words[..|words|] == words;
    BuiltLayered(nodes, nextId, words, |words|);
    BuiltOnTheWay(nodes, nextId, words, |words|);
    LoopFree.MinimizeLayered(last, 0, Alphabet(words));
    Spec.MinimizeIds(last, 0);
    LoopFree.FinishedIsLoopFree(Spec.Minimize(last, 0), Alphabet(words));
  }

  /** While the node strings tell the nodes apart, every state on the way accepts the words so far. */
  lemma {:induction false} BuiltGood(
    nodes: Graph, nextId: nat, words: seq<string>, i: nat, alphabet: set<char>)
    requires Closed(nodes) && forall id :: id in nodes ==> id < nextId
    requires i <= |words| && Sorted(words) && Alphabet(words) <= alphabet
    requires KeysTell(alphabet, nextId, nextId + 1 + Letters(words))
    ensures Spec.Good(BuiltFrom(Spec.Initial(nodes, nextId), words[..i]), WordSet(words[..i]), alphabet)
  {
    hide Spec.Good, Spec.Insert, Alphabet, KeysTell, Letters, Spec.OwnNodes, Spec.WellFormed;
    var start := Spec.Initial(nodes, nextId);
    StartOk(nodes, nextId);
    if i == 0 {
      Spec.InitialGood(nodes, nextId, alphabet);
      NoWords(words);
      NothingBuilt(start, words);
    } else {
      BuiltGood(nodes, nextId, words, i - 1, alphabet);
      BuiltOnTheWay(nodes, nextId, words, i - 1);
      LettersOfPrefix(words, i - 1);
      var before := BuiltFrom(start, words[..i - 1]);
      FewerIds(alphabet, nextId, before.nextId, nextId + 1 + Letters(words));
      InsertNext(before, words, i - 1, alphabet);
      BuiltNext(start, words, i - 1);
    }
  }

  /** Then the list is built exactly. */
  lemma BuiltExactly(nodes: Graph, nextId: nat, words: seq<string>, alphabet: set<char>)
    requires Closed(nodes) && forall id :: id in nodes ==> id < nextId
    requires Sorted(words) && Alphabet(words) <= alphabet
    requires KeysTell(alphabet, nextId, nextId + 1 + Letters(words))
    ensures IsMinimalAutomaton(Built(nodes, nextId, words).nodes, nextId, WordSet(words))
  {
    hide Spec.Good, Spec.Insert, Alphabet, KeysTell, Letters, Spec.Minimize, IsMinimalAutomaton, Spec.OwnNodes;
    var last := BuiltFrom(Spec.Initial(nodes, nextId), words);
    assert words[..|words|] == words;
    BuiltGood(nodes, nextId, words, |words|, alphabet);
    BuiltOnTheWay(nodes, nextId, words, |words|);
    FewerIds(alphabet, nextId, last.nextId, nextId + 1 + Letters(words));
    FinishedAutomaton(last, WordSet(words), alphabet);
    Spec.MinimizeIds(last, 0);
  }

  /**
   * TokenSet.fromArray: the list is rejected exactly when it is out of order, and the token set never has
   * loops. The words are those of the list when no digit comes after another letter, or when all ids have
   * the same number of digits.
   */
  method FromArray(arena: Arena, words: seq<string>) returns (ok: bool, root: nat)
    requires arena.Valid()
    modifies arena
    ensures arena.Valid() && Extends(old(arena.nodes), arena.nodes)
    ensures ok <==> Sorted(words)
    ensures ok ==> root == old(arena.nextId)
                   && arena.nodes == Built(old(arena.nodes), old(arena.nextId), words).nodes
    ensures ok ==> root in arena.nodes && exists depth: nat :: Bounded(arena.nodes, root, depth)
    ensures ok && KeysTell(Alphabet(words), old(arena.nextId), old(arena.nextId) + 1 + Letters(words)) ==>
              IsMinimalAutomaton(arena.nodes, root, WordSet(words))
  {
    hide Spec.Good, IsMinimalAutomaton, KeysTell, Alphabet, WordSet, Spec.Insert, Spec.Minimize, BuiltFrom, Letters, Bounded;
    ghost var base, nextId := arena.nodes, arena.nextId;
    ghost var start := Spec.Initial(base, nextId);
    var builder := new Builder(arena);
    root := builder.root;
    BuiltOnTheWay(base, nextId, words, 0);
    NothingBuilt(start, words);
    var i := 0;
    while i < |words|
      invariant 0 <= i <= |words| && fresh(builder) && builder.arena == arena && builder.root == root
      invariant builder.State() == BuiltFrom(start, words[..i])
      invariant OnTheWay(builder.State(), base, nextId, words, i)
      invariant forall j :: 0 < j < i ==> !Lexicographic.Less(words[j], words[j - 1])
    {
      ok := builder.Insert(words[i]);
      if !ok {
        return false, root;
      }
      BuiltNext(start, words, i);
      BuiltOnTheWay(base, nextId, words, i + 1);
      i := i + 1;
    }
    assert words[..i] == words;
    BuiltIsLoopFree(base, nextId, words);
    if KeysTell(Alphabet(words), nextId, nextId + 1 + Letters(words)) {
      BuiltExactly(base, nextId, words, Alphabet(words));
    }
    Spec.MinimizeOwn(builder.State(), 0, base);
    builder.Finish();
    ok := true;
  }

  lemma NothingBuilt(s: Spec.State, words: seq<string>)
    requires Spec.WellFormed(s)
    ensures BuiltFrom(s, words[..0]) == s && Letters(words[..0]) == 0
  {
  }
}

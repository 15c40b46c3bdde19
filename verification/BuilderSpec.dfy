/** The steps of TokenSet.Builder of docs/ui/lunr.js as functions on its state, and what they keep. */
module BuilderSpec {
  import opened Automata
  import opened Wrappers
  import opened Lexicographic
  import opened NodeKeys

  datatype Unchecked = Unchecked(parent: nat, letter: char, child: nat)

  datatype State = State(
    nodes: Graph, nextId: nat, root: nat,
    previousWord: string, unchecked: seq<Unchecked>, minimized: map<string, nat>)

  function CommonPrefix(u: string, v: string): (n: nat)
    ensures n <= |u| && n <= |v| && u[..n] == v[..n]
    ensures n < |u| && n < |v| ==> u[n] != v[n]
  {
    if u != "" && v != "" && u[0] == v[0] then
      var n := CommonPrefix(u[1..], v[1..]);
      assert u[..n + 1] == [u[0]] + u[1..][..n] && v[..n + 1] == [v[0]] + v[1..][..n];
      n + 1
    else 0
  }

  function WithEdge(g: Graph, id: nat, c: char, target: nat): Graph
    requires id in g
  {
    g[id := g[id].(edges := g[id].edges[c := target])]
  }

  /** The nodes on the path of the previous word that are not minimized yet, from the root down. */
  function Spine(s: State, i: nat): nat
    requires i <= |s.unchecked|
  {
    if i == 0 then s.root else s.unchecked[i - 1].child
  }

  function Last(s: State): nat {
    Spine(s, |s.unchecked|)
  }

  ghost predicate WellFormed(s: State) {
    && Closed(s.nodes)
    && (forall id :: id in s.nodes ==> id < s.nextId)
    && s.root in s.nodes
    && (forall i :: 0 <= i < |s.unchecked| ==> s.unchecked[i].parent in s.nodes && s.unchecked[i].child in s.nodes)
    && (forall k :: k in s.minimized ==> s.minimized[k] in s.nodes)
    && (forall i :: 0 <= i < |s.unchecked| ==> s.root <= s.unchecked[i].child)
    && (forall k :: k in s.minimized ==> s.root <= s.minimized[k])
  }

  lemma Renamed(s: State, word: string)
    requires WellFormed(s)
    ensures WellFormed(s.(previousWord := word))
  {
  }

  // ---------- the steps ----------

  function Initial(nodes: Graph, nextId: nat): State {
    State(nodes[nextId := BLANK], nextId + 1, nextId, "", [], map[])
  }

  /** One turn of the loop of `minimize`. */
  function Pop(s: State): (t: State)
    requires WellFormed(s) && s.unchecked != []
    ensures WellFormed(t) && |t.unchecked| == |s.unchecked| - 1 && t.previousWord == s.previousWord
  {
    var n := |s.unchecked| - 1;
    var u := s.unchecked[n];
    var key := Key(s.nodes[u.child]);
    if key in s.minimized then
      s.(nodes := WithEdge(s.nodes, u.parent, u.letter, s.minimized[key]), unchecked := s.unchecked[..n])
    else
      s.(minimized := s.minimized[key := u.child], unchecked := s.unchecked[..n])
  }

  function Minimize(s: State, downTo: nat): (t: State)
    requires WellFormed(s)
    ensures WellFormed(t) && |t.unchecked| == (if |s.unchecked| <= downTo then |s.unchecked| else downTo)
    ensures t.previousWord == s.previousWord
    decreases |s.unchecked|
  {
    if |s.unchecked| <= downTo then s else Minimize(Pop(s), downTo)
  }

  /** One turn of the loop of `insert`: a new node below the last one. */
  function Grow(s: State, c: char): (t: State)
    requires WellFormed(s)
    ensures WellFormed(t) && |t.unchecked| == |s.unchecked| + 1
  {
    s.(nodes := WithEdge(s.nodes[s.nextId := BLANK], Last(s), c, s.nextId),
       nextId := s.nextId + 1,
       unchecked := s.unchecked + [Unchecked(Last(s), c, s.nextId)])
  }

  function GrowAll(s: State, letters: string): (t: State)
    requires WellFormed(s)
    ensures WellFormed(t) && |t.unchecked| == |s.unchecked| + |letters| && t.previousWord == s.previousWord
    decreases |letters|
  {
    if letters == "" then s else GrowAll(Grow(s, letters[0]), letters[1..])
  }

  function MarkFinal(s: State): (t: State)
    requires WellFormed(s)
    ensures WellFormed(t)
  {
    s.(nodes := s.nodes[Last(s) := s.nodes[Last(s)].(final := true)])
  }

  /** `insert` of a word that is not out of order. */
  function Insert(s: State, word: string): (t: State)
    requires WellFormed(s)
    ensures WellFormed(t) && t.previousWord == word
    ensures |s.unchecked| == |s.previousWord| ==> |t.unchecked| == |word|
  {
    var n := CommonPrefix(word, s.previousWord);
    MarkFinal(GrowAll(Minimize(s, n).(previousWord := word), word[n..]))
  }

  // ---------- the invariant ----------

  ghost function SpineOf(s: State): (spine: seq<nat>)
    ensures |spine| == |s.unchecked| + 1 && forall i :: 0 <= i < |spine| ==> spine[i] == Spine(s, i)
  {
    seq(|s.unchecked| + 1, i requires 0 <= i < |s.unchecked| + 1 => Spine(s, i))
  }

  /** The spine runs along the path; every other edge of a live node leads to a registered node,
      and no edge of a spine node comes after the letter that the path takes there. */
  ghost predicate Shape(g: Graph, spine: seq<nat>, path: string, registered: set<nat>, alphabet: set<char>) {
    && 1 <= |spine| <= |path| + 1
    && (forall i :: 0 <= i < |spine| ==>
          spine[i] in g && spine[i] !in registered && g[spine[i]].edges.Keys <= alphabet)
    && (forall i, j :: 0 <= i < j < |spine| ==> spine[i] != spine[j])
    && (forall i :: 0 <= i < |spine| - 1 ==>
          path[i] in g[spine[i]].edges && g[spine[i]].edges[path[i]] == spine[i + 1])
    && (forall i, c {:trigger c in g[spine[i]].edges} :: 0 <= i < |spine| && c in g[spine[i]].edges ==>
          i < |path| && c <= path[i])
    && (forall i, c :: 0 <= i < |spine| && c in g[spine[i]].edges && !(i < |spine| - 1 && c == path[i]) ==>
          g[spine[i]].edges[c] in registered)
    && (forall id :: id in registered ==> id in g && g[id].edges.Keys <= alphabet)
    && (forall id, c :: id in registered && c in g[id].edges ==> g[id].edges[c] in registered)
  }

  ghost predicate Keyed(g: Graph, minimized: map<string, nat>) {
    forall k :: k in minimized ==> minimized[k] in g && Key(g[minimized[k]]) == k
  }

  ghost predicate Inhabited(g: Graph, registered: set<nat>) {
    forall id :: id in registered ==> exists w :: Accepts(g, id, w)
  }

  ghost predicate Linked(s: State) {
    && |s.unchecked| <= |s.previousWord|
    && forall i :: 0 <= i < |s.unchecked| ==> s.unchecked[i] == Unchecked(Spine(s, i), s.previousWord[i], Spine(s, i + 1))
  }

  ghost predicate HasLanguage(g: Graph, root: nat, words: set<string>) {
    forall w :: Accepts(g, root, w) <==> w in words
  }

  ghost predicate Core(s: State, words: set<string>, alphabet: set<char>) {
    && WellFormed(s) && Linked(s)
    && Shape(s.nodes, SpineOf(s), s.previousWord, s.minimized.Values, alphabet)
    && Keyed(s.nodes, s.minimized)
    && Inhabited(s.nodes, s.minimized.Values)
    && HasLanguage(s.nodes, s.root, words)
  }

  /** Every spine node accepts its part of the path. */
  ghost predicate SpineAccepts(g: Graph, spine: seq<nat>, path: string) {
    |spine| <= |path| + 1 && forall i :: 0 <= i < |spine| ==> Accepts(g, spine[i], path[i..])
  }

  /** What every step of `minimize` keeps. */
  ghost predicate Good(s: State, words: set<string>, alphabet: set<char>) {
    && Core(s, words, alphabet)
    && if words == {} then s.previousWord == "" else SpineAccepts(s.nodes, SpineOf(s), s.previousWord)
  }

  lemma InitialGood(nodes: Graph, nextId: nat, alphabet: set<char>)
    requires Closed(nodes) && forall id :: id in nodes ==> id < nextId
    ensures Good(Initial(nodes, nextId), {}, alphabet)
  {
  }

  // ---------- minimize keeps the language ----------

  lemma {:induction false} Redirect(g: Graph, parent: nat, c: char, child: nat, twin: nat, id: nat, w: string)
    requires parent in g && child in g && twin in g && g[child] == g[twin]
    requires c in g[parent].edges && g[parent].edges[c] == child
    ensures Accepts(WithEdge(g, parent, c, twin), id, w) == Accepts(g, id, w)
    decreases |w|
  {
    if id in g && w != "" && w[0] in g[id].edges {
      var g' := WithEdge(g, parent, c, twin);
      if id == parent && w[0] == c {
        Redirect(g, parent, c, child, twin, twin, w[1..]);
        assert Accepts(g, twin, w[1..]) == Accepts(g, child, w[1..]);
      } else {
        Redirect(g, parent, c, child, twin, g[id].edges[w[0]], w[1..]);
      }
    }
  }

  lemma ShapeRegistered(g: Graph, spine: seq<nat>, path: string, registered: set<nat>, alphabet: set<char>)
    requires Shape(g, spine, path, registered, alphabet) && |spine| > 1
    ensures Shape(g, spine[..|spine| - 1], path, registered + {spine[|spine| - 1]}, alphabet)
  {
  }

  lemma ShapeRedirected(g: Graph, spine: seq<nat>, path: string, registered: set<nat>, alphabet: set<char>, twin: nat)
    requires Shape(g, spine, path, registered, alphabet) && |spine| > 1 && twin in registered
    ensures Shape(WithEdge(g, spine[|spine| - 2], path[|spine| - 2], twin), spine[..|spine| - 1], path, registered, alphabet)
  {
  }

  lemma PopSpine(s: State)
    requires WellFormed(s) && Linked(s) && s.unchecked != []
    ensures SpineOf(Pop(s)) == SpineOf(s)[..|s.unchecked|]
    ensures Linked(Pop(s))
  {
    assert forall i :: 0 <= i <= |Pop(s).unchecked| ==> Spine(Pop(s), i) == Spine(s, i);
  }

  lemma ValuesOfNew(m: map<string, nat>, k: string, v: nat)
    requires k !in m
    ensures m[k := v].Values == m.Values + {v}
  {
    var m' := m[k := v];
    assert m'[k] == v;
    forall x | x in m.Values
      ensures x in m'.Values
    {
      var j :| j in m && m[j] == x;
      assert m'[j] == x;
    }
  }

  lemma RegisterNode(g: Graph, minimized: map<string, nat>, id: nat, w: string)
    requires Keyed(g, minimized) && Inhabited(g, minimized.Values)
    requires id in g && Key(g[id]) !in minimized && Accepts(g, id, w)
    ensures Keyed(g, minimized[Key(g[id]) := id]) && Inhabited(g, minimized[Key(g[id]) := id].Values)
    ensures minimized[Key(g[id]) := id].Values == minimized.Values + {id}
  {
    ValuesOfNew(minimized, Key(g[id]), id);
  }

  lemma PopRegisters(s: State, words: set<string>, alphabet: set<char>)
    requires Good(s, words, alphabet) && s.unchecked != []
    requires Key(s.nodes[Last(s)]) !in s.minimized
    ensures Good(Pop(s), words, alphabet)
  {
    PopSpine(s);
    var spine, n := SpineOf(s), |s.unchecked|;
    ShapeRegistered(s.nodes, spine, s.previousWord, s.minimized.Values, alphabet);
    assert Accepts(s.nodes, spine[n], s.previousWord[n..]);
    RegisterNode(s.nodes, s.minimized, spine[n], s.previousWord[n..]);
  }

  lemma TwinIsEqual(
      g: Graph, spine: seq<nat>, path: string, minimized: map<string, nat>, alphabet: set<char>, lo: nat, hi: nat)
    returns (twin: nat)
    requires Shape(g, spine, path, minimized.Values, alphabet) && Keyed(g, minimized) && KeysTell(alphabet, lo, hi)
    requires forall id :: id in minimized.Values ==> lo <= id <= hi
    requires Key(g[spine[|spine| - 1]]) in minimized
    ensures twin == minimized[Key(g[spine[|spine| - 1]])] && twin in minimized.Values
    ensures g[twin] == g[spine[|spine| - 1]]
  {
    var child := spine[|spine| - 1];
    twin := minimized[Key(g[child])];
    assert twin in minimized.Values;
    assert g[child].edges.Keys <= alphabet && g[twin].edges.Keys <= alphabet;
    KeysTellApart(g[child], g[twin], alphabet, lo, hi);
  }

  ghost predicate SameAccepts(g: Graph, g': Graph) {
    forall id, w :: Accepts(g', id, w) == Accepts(g, id, w)
  }

  lemma SameAcceptsKeeps(
      g: Graph, g': Graph, spine: seq<nat>, path: string, registered: set<nat>, words: set<string>)
    requires SameAccepts(g, g') && |spine| > 0
    requires Inhabited(g, registered) && HasLanguage(g, spine[0], words) && SpineAccepts(g, spine, path)
    ensures Inhabited(g', registered) && HasLanguage(g', spine[0], words) && SpineAccepts(g', spine, path)
  {
    forall i | 0 <= i < |spine|
      ensures Accepts(g', spine[i], path[i..])
    {
      assert Accepts(g, spine[i], path[i..]);
    }
    forall id | id in registered
      ensures exists w :: Accepts(g', id, w)
    {
      var w :| Accepts(g, id, w);
      assert Accepts(g', id, w);
    }
  }

  lemma KeyedElsewhere(g: Graph, g': Graph, minimized: map<string, nat>)
    requires Keyed(g, minimized) && forall id :: id in minimized.Values ==> id in g' && g'[id] == g[id]
    ensures Keyed(g', minimized)
  {
    forall k | k in minimized
      ensures minimized[k] in g' && Key(g'[minimized[k]]) == k
    {
      assert minimized[k] in minimized.Values;
    }
  }

  lemma SpineAcceptsPrefix(g: Graph, spine: seq<nat>, path: string)
    requires SpineAccepts(g, spine, path) && spine != []
    ensures SpineAccepts(g, spine[..|spine| - 1], path)
  {
  }

  lemma RedirectKeeps(
      g: Graph, spine: seq<nat>, path: string, minimized: map<string, nat>, words: set<string>, alphabet: set<char>,
      twin: nat)
    requires Shape(g, spine, path, minimized.Values, alphabet) && |spine| > 1
    requires Keyed(g, minimized) && Inhabited(g, minimized.Values) && HasLanguage(g, spine[0], words)
    requires SpineAccepts(g, spine, path)
    requires twin in minimized.Values && g[twin] == g[spine[|spine| - 1]]
    ensures var g' := WithEdge(g, spine[|spine| - 2], path[|spine| - 2], twin);
            && Keyed(g', minimized) && Inhabited(g', minimized.Values) && HasLanguage(g', spine[0], words)
            && SpineAccepts(g', spine, path)
  {
    var n := |spine| - 1;
    var g' := WithEdge(g, spine[n - 1], path[n - 1], twin);
    forall id, w
      ensures Accepts(g', id, w) == Accepts(g, id, w)
    {
      Redirect(g, spine[n - 1], path[n - 1], spine[n], twin, id, w);
    }
    SameAcceptsKeeps(g, g', spine, path, minimized.Values, words);
    KeyedElsewhere(g, g', minimized);
  }

  lemma PopReplaces(s: State, words: set<string>, alphabet: set<char>)
    requires Good(s, words, alphabet) && s.unchecked != [] && KeysTell(alphabet, s.root, s.nextId)
    requires Key(s.nodes[Last(s)]) in s.minimized
    ensures Good(Pop(s), words, alphabet)
  {
    PopSpine(s);
    var spine := SpineOf(s);
    var twin := TwinIsEqual(s.nodes, spine, s.previousWord, s.minimized, alphabet, s.root, s.nextId);
    ShapeRedirected(s.nodes, spine, s.previousWord, s.minimized.Values, alphabet, twin);
    RedirectKeeps(s.nodes, spine, s.previousWord, s.minimized, words, alphabet, twin);
    SpineAcceptsPrefix(Pop(s).nodes, spine, s.previousWord);
  }

  lemma {:induction false} MinimizeGood(s: State, downTo: nat, words: set<string>, alphabet: set<char>)
    requires Good(s, words, alphabet) && KeysTell(alphabet, s.root, s.nextId)
    ensures Good(Minimize(s, downTo), words, alphabet)
    decreases |s.unchecked|
  {
    if |s.unchecked| > downTo {
      if Key(s.nodes[Last(s)]) in s.minimized {
        PopReplaces(s, words, alphabet);
      } else {
        PopRegisters(s, words, alphabet);
      }
      MinimizeGood(Pop(s), downTo, words, alphabet);
    }
  }

  // ---------- insert adds exactly the word ----------

  lemma {:induction false} BeforeAtPrefix(u: string, v: string)
    requires !Less(u, v)
    ensures var n := CommonPrefix(u, v); n < |v| ==> n < |u| && v[n] < u[n]
  {
    if u != "" && v != "" && u[0] == v[0] {
      BeforeAtPrefix(u[1..], v[1..]);
    }
  }

  lemma SwitchPath(g: Graph, spine: seq<nat>, path: string, word: string, registered: set<nat>, alphabet: set<char>)
    requires Shape(g, spine, path, registered, alphabet) && !Less(word, path)
    requires |spine| == CommonPrefix(word, path) + 1
    ensures Shape(g, spine, word, registered, alphabet)
    ensures |spine| <= |word| ==> word[|spine| - 1] !in g[spine[|spine| - 1]].edges
  {
    BeforeAtPrefix(word, path);
    var n := |spine| - 1;
    assert forall i :: 0 <= i < n ==> word[i] == word[..n][i] == path[..n][i] == path[i];
  }

  lemma {:induction false} DeadEndAccepts(g: Graph, last: nat, c: char, added: nat, id: nat, w: string)
    requires Closed(g) && last in g && c !in g[last].edges && added !in g && id in g
    ensures Accepts(WithEdge(g[added := BLANK], last, c, added), id, w) == Accepts(g, id, w)
    decreases |w|
  {
    var g' := WithEdge(g[added := BLANK], last, c, added);
    if w != "" {
      if w[0] in g[id].edges {
        DeadEndAccepts(g, last, c, added, g[id].edges[w[0]], w[1..]);
      } else if id == last && w[0] == c {
        assert !Accepts(g', added, w[1..]);
      }
    }
  }

  lemma ShapeGrown(g: Graph, spine: seq<nat>, path: string, registered: set<nat>, alphabet: set<char>, added: nat)
    requires Shape(g, spine, path, registered, alphabet) && |spine| <= |path| && path[|spine| - 1] in alphabet
    requires path[|spine| - 1] !in g[spine[|spine| - 1]].edges && added !in g
    ensures Shape(WithEdge(g[added := BLANK], spine[|spine| - 1], path[|spine| - 1], added),
                  spine + [added], path, registered, alphabet)
  {
    hide WithEdge;
    var n := |spine| - 1;
    var last, c := spine[n], path[n];
    var g', spine' := WithEdge(g[added := BLANK], last, c, added), spine + [added];
    GrownNodes(g, last, c, added);
    assert forall i :: 0 <= i <= n ==> spine'[i] == spine[i];
    assert spine'[n + 1] == added && forall i :: 0 <= i < n ==> spine[i] != last;
    assert forall i :: 0 <= i < n ==> g'[spine[i]] == g[spine[i]];
  }

  lemma GrownNodes(g: Graph, last: nat, c: char, added: nat)
    requires last in g && added !in g
    ensures var g' := WithEdge(g[added := BLANK], last, c, added);
            && added in g' && g'[added] == BLANK && last in g'
            && g'[last].edges == g[last].edges[c := added]
            && forall id :: id in g && id != last ==> id in g' && g'[id] == g[id]
  {
  }

  lemma GrowKeeps(g: Graph, root: nat, minimized: map<string, nat>, words: set<string>, last: nat, c: char, added: nat)
    requires Closed(g) && root in g && last in g && c !in g[last].edges && added !in g
    requires Keyed(g, minimized) && Inhabited(g, minimized.Values) && HasLanguage(g, root, words)
    requires last !in minimized.Values
    ensures var g' := WithEdge(g[added := BLANK], last, c, added);
            Keyed(g', minimized) && Inhabited(g', minimized.Values) && HasLanguage(g', root, words)
  {
    var g' := WithEdge(g[added := BLANK], last, c, added);
    forall id, w | id in g
      ensures Accepts(g', id, w) == Accepts(g, id, w)
    {
      DeadEndAccepts(g, last, c, added, id, w);
    }
    KeyedElsewhere(g, g', minimized);
    forall id | id in minimized.Values
      ensures exists w :: Accepts(g', id, w)
    {
      var w :| Accepts(g, id, w);
      assert Accepts(g', id, w);
    }
  }

  ghost predicate Growing(s: State, words: set<string>, alphabet: set<char>) {
    && Core(s, words, alphabet)
    && (|s.unchecked| < |s.previousWord| ==> s.previousWord[|s.unchecked|] !in s.nodes[Last(s)].edges)
  }

  lemma GrowStep(s: State, words: set<string>, alphabet: set<char>)
    requires Growing(s, words, alphabet) && |s.unchecked| < |s.previousWord|
    requires s.previousWord[|s.unchecked|] in alphabet
    ensures Growing(Grow(s, s.previousWord[|s.unchecked|]), words, alphabet)
  {
    var c := s.previousWord[|s.unchecked|];
    var t, spine := Grow(s, c), SpineOf(s);
    ShapeGrown(s.nodes, spine, s.previousWord, s.minimized.Values, alphabet, s.nextId);
    assert SpineOf(t) == spine + [s.nextId];
    GrowKeeps(s.nodes, s.root, s.minimized, words, Last(s), c, s.nextId);
    assert Linked(t) by {
      assert forall i :: 0 <= i <= |s.unchecked| ==> Spine(t, i) == Spine(s, i);
    }
  }

  lemma {:induction false} GrowAllGood(s: State, words: set<string>, alphabet: set<char>)
    requires Growing(s, words, alphabet)
    requires forall i :: 0 <= i < |s.previousWord| ==> s.previousWord[i] in alphabet
    ensures var t := GrowAll(s, s.previousWord[|s.unchecked|..]);
            Core(t, words, alphabet) && t.previousWord == s.previousWord && |t.unchecked| == |s.previousWord|
    decreases |s.previousWord| - |s.unchecked|
  {
    var n := |s.unchecked|;
    if n < |s.previousWord| {
      GrowStep(s, words, alphabet);
      assert s.previousWord[n..][1..] == s.previousWord[n + 1..];
      GrowAllGood(Grow(s, s.previousWord[n]), words, alphabet);
    }
  }

  lemma {:induction false} RegisteredStay(g: Graph, registered: set<nat>, id: nat, w: string)
    requires forall id :: id in registered ==> id in g
    requires forall id, c :: id in registered && c in g[id].edges ==> g[id].edges[c] in registered
    requires id in registered && Delta(g, id, w).Some?
    ensures Delta(g, id, w).value in registered
    decreases |w|
  {
    if w != "" {
      RegisteredStay(g, registered, g[id].edges[w[0]], w[1..]);
    }
  }

  lemma {:induction false} PathToLast(
      g: Graph, spine: seq<nat>, path: string, registered: set<nat>, alphabet: set<char>, i: nat, w: string)
    requires Shape(g, spine, path, registered, alphabet) && |spine| == |path| + 1 && i < |spine|
    ensures Delta(g, spine[i], w) == Some(spine[|path|]) <==> w == path[i..]
    decreases |w|
  {
    if w != "" && w[0] in g[spine[i]].edges {
      if w[0] == path[i] {
        PathToLast(g, spine, path, registered, alphabet, i + 1, w[1..]);
        assert path[i..] == [path[i]] + path[i + 1..];
        assert w == [w[0]] + w[1..];
      } else {
        var next := g[spine[i]].edges[w[0]];
        if Delta(g, next, w[1..]).Some? {
          RegisteredStay(g, registered, next, w[1..]);
        }
        assert path[i..][0] == path[i];
      }
    } else if i < |path| {
      assert path[i..][0] == path[i];
    }
  }

  lemma {:induction false} MarkedAccepts(g: Graph, last: nat, id: nat, w: string)
    requires last in g
    ensures Accepts(g[last := g[last].(final := true)], id, w) <==>
            Accepts(g, id, w) || Delta(g, id, w) == Some(last)
    decreases |w|
  {
    if id in g && w != "" && w[0] in g[id].edges {
      MarkedAccepts(g, last, g[id].edges[w[0]], w[1..]);
    }
  }

  /** The shape speaks of edges only. */
  lemma ShapeOfEdges(
      g: Graph, g': Graph, spine: seq<nat>, path: string, registered: set<nat>, alphabet: set<char>)
    requires Shape(g, spine, path, registered, alphabet)
    requires forall id :: id in g ==> id in g' && g'[id].edges == g[id].edges
    ensures Shape(g', spine, path, registered, alphabet)
  {
  }

  lemma ShapeBounds(g: Graph, spine: seq<nat>, path: string, registered: set<nat>, alphabet: set<char>)
    requires Shape(g, spine, path, registered, alphabet)
    ensures 1 <= |spine| <= |path| + 1
    ensures forall i :: 0 <= i < |spine| ==> spine[i] in g && spine[i] !in registered
  {
  }

  lemma MarkKeeps(
      g: Graph, spine: seq<nat>, path: string, minimized: map<string, nat>, words: set<string>, alphabet: set<char>)
    requires Shape(g, spine, path, minimized.Values, alphabet) && |spine| == |path| + 1
    requires Keyed(g, minimized) && Inhabited(g, minimized.Values) && HasLanguage(g, spine[0], words)
    ensures var g' := g[spine[|path|] := g[spine[|path|]].(final := true)];
            && Shape(g', spine, path, minimized.Values, alphabet)
            && Keyed(g', minimized) && Inhabited(g', minimized.Values)
            && HasLanguage(g', spine[0], words + {path}) && SpineAccepts(g', spine, path)
  {
    hide Shape, Accepts, Delta;
    ShapeBounds(g, spine, path, minimized.Values, alphabet);
    var last := spine[|path|];
    var g' := g[last := g[last].(final := true)];
    forall id, w
      ensures Accepts(g', id, w) <==> Accepts(g, id, w) || Delta(g, id, w) == Some(last)
    {
      MarkedAccepts(g, last, id, w);
    }
    forall i, w | 0 <= i < |spine|
      ensures Delta(g, spine[i], w) == Some(last) <==> w == path[i..]
    {
      PathToLast(g, spine, path, minimized.Values, alphabet, i, w);
    }
    assert path[0..] == path;
    ShapeOfEdges(g, g', spine, path, minimized.Values, alphabet);
    KeyedElsewhere(g, g', minimized);
    forall id | id in minimized.Values
      ensures exists w :: Accepts(g', id, w)
    {
      var w :| Accepts(g, id, w);
      assert Accepts(g', id, w);
    }
  }

  /** One insertion of a word that is not before the previous one adds that word and nothing else. */
  lemma InsertGood(s: State, word: string, words: set<string>, alphabet: set<char>)
    requires Good(s, words, alphabet) && |s.unchecked| == |s.previousWord|
    requires KeysTell(alphabet, s.root, s.nextId)
    requires !Less(word, s.previousWord) && forall i :: 0 <= i < |word| ==> word[i] in alphabet
    ensures Good(Insert(s, word), words + {word}, alphabet)
  {
    var n := CommonPrefix(word, s.previousWord);
    MinimizeGood(s, n, words, alphabet);
    var m := Minimize(s, n);
    ReadyToGrow(m, word, words, alphabet);
    var grown := GrowAll(m.(previousWord := word), word[n..]);
    GrowAllGood(m.(previousWord := word), words, alphabet);
    MarkGood(grown, words, alphabet);
  }

  lemma ReadyToGrow(m: State, word: string, words: set<string>, alphabet: set<char>)
    requires Core(m, words, alphabet) && !Less(word, m.previousWord)
    requires |m.unchecked| == CommonPrefix(word, m.previousWord)
    ensures Growing(m.(previousWord := word), words, alphabet)
  {
    var t, n := m.(previousWord := word), |m.unchecked|;
    SwitchPath(m.nodes, SpineOf(m), m.previousWord, word, m.minimized.Values, alphabet);
    SameSpine(m, t);
    assert forall i :: 0 <= i < n ==> word[i] == word[..n][i] == m.previousWord[..n][i];
  }

  lemma SameSpine(s: State, t: State)
    requires s.unchecked == t.unchecked && s.root == t.root
    ensures SpineOf(s) == SpineOf(t) && forall i :: 0 <= i <= |s.unchecked| ==> Spine(s, i) == Spine(t, i)
  {
    assert forall i :: 0 <= i <= |s.unchecked| ==> Spine(s, i) == Spine(t, i);
  }

  lemma MarkGood(s: State, words: set<string>, alphabet: set<char>)
    requires Core(s, words, alphabet) && |s.unchecked| == |s.previousWord|
    ensures Good(MarkFinal(s), words + {s.previousWord}, alphabet)
  {
    MarkKeeps(s.nodes, SpineOf(s), s.previousWord, s.minimized, words, alphabet);
    SameSpine(s, MarkFinal(s));
  }

  // ---------- the builder touches no node but its own ----------

  ghost predicate OwnNodes(s: State, base: Graph) {
    && Extends(base, s.nodes)
    && s.root !in base
    && (forall id :: id in base ==> id < s.nextId)
    && (forall i :: 0 <= i < |s.unchecked| ==> s.unchecked[i].parent !in base && s.unchecked[i].child !in base)
  }

  lemma {:induction false} MinimizeOwn(s: State, downTo: nat, base: Graph)
    requires WellFormed(s) && OwnNodes(s, base)
    ensures OwnNodes(Minimize(s, downTo), base)
    decreases |s.unchecked|
  {
    if |s.unchecked| > downTo {
      MinimizeOwn(Pop(s), downTo, base);
    }
  }

  lemma {:induction false} GrowAllOwn(s: State, letters: string, base: Graph)
    requires WellFormed(s) && OwnNodes(s, base)
    ensures OwnNodes(GrowAll(s, letters), base)
    decreases |letters|
  {
    if letters != "" {
      GrowAllOwn(Grow(s, letters[0]), letters[1..], base);
    }
  }

  lemma InsertOwn(s: State, word: string, base: Graph)
    requires WellFormed(s) && OwnNodes(s, base)
    ensures OwnNodes(Insert(s, word), base)
  {
    hide Minimize, GrowAll;
    var n := CommonPrefix(word, s.previousWord);
    MinimizeOwn(s, n, base);
    GrowAllOwn(Minimize(s, n).(previousWord := word), word[n..], base);
  }

  // ---------- the ids it uses ----------

  lemma {:induction false} MinimizeIds(s: State, downTo: nat)
    requires WellFormed(s)
    ensures Minimize(s, downTo).nextId == s.nextId && Minimize(s, downTo).root == s.root
    decreases |s.unchecked|
  {
    if |s.unchecked| > downTo {
      MinimizeIds(Pop(s), downTo);
    }
  }

  lemma {:induction false} GrowAllIds(s: State, letters: string)
    requires WellFormed(s)
    ensures GrowAll(s, letters).nextId == s.nextId + |letters| && GrowAll(s, letters).root == s.root
    decreases |letters|
  {
    if letters != "" {
      GrowAllIds(Grow(s, letters[0]), letters[1..]);
    }
  }

  /** An insertion takes at most one id for each letter. */
  lemma InsertIds(s: State, word: string)
    requires WellFormed(s)
    ensures s.nextId <= Insert(s, word).nextId <= s.nextId + |word| && Insert(s, word).root == s.root
  {
    var n := CommonPrefix(word, s.previousWord);
    MinimizeIds(s, n);
    GrowAllIds(Minimize(s, n).(previousWord := word), word[n..]);
  }
}

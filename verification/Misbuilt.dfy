/**
 * When TokenSet.fromArray of docs/ui/lunr.js builds every list over an alphabet exactly: if and only if
 * no digit comes after another letter. For a digit y after a letter x, the node after x in "xx", "xy" has
 * two edges to one leaf; a later node with an edge x to a node whose id reads like "leaf y leaf" is taken
 * for it.
 */
module Misbuilt {
  import opened Automata
  import opened BuilderSpec
  import opened Decimal
  import opened Lexicographic
  import opened NodeKeys
  import opened Strings
  import Builder

  const LEAF := Node(true, map[])

  /** A builder that starts on these nodes with the id root, and a digit y after a letter x. */
  datatype Start = Start(nodes: Graph, root: nat, x: char, y: char) {
    ghost predicate Ok() {
      Closed(nodes) && (forall id :: id in nodes ==> id < root) && x < y && IsDigit(y)
    }

    /** The node that "xx" and "xy" end in. */
    function Leaf(): nat {
      root + 2
    }

    function Fork(): Node {
      Node(false, map[x := Leaf(), y := Leaf()])
    }

    function Numeral(): string {
      Digits(Leaf()) + [y] + Digits(Leaf())
    }

    /** The id whose numeral reads like the rest of the fork's string. */
    function Target(): nat
      requires IsDigit(y)
    {
      Value(Numeral())
    }

    /** The number of letters x in the third word, for which its last node but one has that id. */
    function Run(): int
      requires IsDigit(y)
    {
      Target() - root - 4
    }

    lemma TargetReads()
      requires IsDigit(y)
      ensures Digits(Target()) == Numeral() && Run() > 9
    {
      hide Digits, Value;
      var leaf := Digits(Leaf());
      assert Numeral()[0] == leaf[0] && AllDigits(Numeral());
      DigitsOfValue(Numeral());
      ValueOfDigits(Leaf());
      ValueGrows(leaf, [y] + leaf);
      assert leaf + ([y] + leaf) == Numeral();
    }

    ghost function LongWord(): string
      requires IsDigit(y)
    {
      TargetReads();
      [y] + Repeat(x, Run()) + [y]
    }

    ghost function Words(): seq<string>
      requires IsDigit(y)
    {
      [[x, x], [x, y], LongWord()]
    }
  }

  lemma {:induction false} ValueGrows(u: string, v: string)
    requires AllDigits(u) && AllDigits(v) && |v| >= 2
    ensures AllDigits(u + v) && Value(u + v) >= 100 * Value(u)
    decreases |v|
  {
    var w := u + v;
    assert w[..|w| - 1] == u + v[..|v| - 1];
    if |v| > 2 {
      ValueGrows(u, v[..|v| - 1]);
    } else {
      assert w[..|w| - 1][..|w| - 2] == u;
    }
  }

  // ---------- the strings of the nodes ----------

  lemma OneEdgeKey(c: char, n: nat)
    ensures Key(Node(false, map[c := n])) == "0" + ([c] + Digits(n))
  {
    var edges := map[c := n];
    var noEdges: map<char, nat> := map[];
    assert c in edges && edges.Keys == {c} && edges - {c} == noEdges;
    assert LeastLabel({c}) == c;
    assert Chunks(edges) == [c] + Digits(n) + "" == [c] + Digits(n);
  }

  lemma ForkKey(c: Start)
    requires c.Ok()
    ensures Key(c.Fork()) == "0" + ([c.x] + c.Numeral())
  {
    hide Digits;
    var edges, leaf := c.Fork().edges, Digits(c.Leaf());
    var rest: map<char, nat> := map[c.y := c.Leaf()];
    var noEdges: map<char, nat> := map[];
    assert c.x in edges && c.y in edges && edges.Keys == {c.x, c.y};
    assert edges - {c.x} == rest && rest.Keys == {c.y};
    assert LeastLabel({c.x, c.y}) == c.x && LeastLabel({c.y}) == c.y && rest - {c.y} == noEdges;
    assert Chunks(rest) == [c.y] + leaf + "" == [c.y] + leaf;
    assert Chunks(edges) == [c.x] + leaf + ([c.y] + leaf) == [c.x] + c.Numeral();
  }

  /** The collision. */
  lemma SameKey(c: Start)
    requires c.Ok()
    ensures Key(Node(false, map[c.x := c.Target()])) == Key(c.Fork())
  {
    c.TargetReads();
    OneEdgeKey(c.x, c.Target());
    ForkKey(c);
  }

  lemma EdgeKeysDiffer(c: char, m: nat, d: char, n: nat)
    requires c != d || m != n
    ensures Key(Node(false, map[c := m])) != Key(Node(false, map[d := n]))
  {
    OneEdgeKey(c, m);
    OneEdgeKey(d, n);
    ValueOfDigits(m);
    ValueOfDigits(n);
    assert ("0" + ([c] + Digits(m)))[1] == c && ("0" + ([d] + Digits(n)))[1] == d;
    assert ("0" + ([c] + Digits(m)))[2..] == Digits(m) && ("0" + ([d] + Digits(n)))[2..] == Digits(n);
  }

  lemma NoLeafKey(c: char, n: nat)
    ensures Key(Node(false, map[c := n])) != Key(LEAF)
  {
    OneEdgeKey(c, n);
  }

  // ---------- growing and registering a path ----------

  /** The node that letter k of a path becomes. */
  predicate IsPathNode(g: Graph, letters: string, first: nat, k: nat)
    requires k < |letters|
  {
    && first + k in g
    && g[first + k] == Node(false, if k + 1 < |letters| then map[letters[k + 1] := first + k + 1] else map[])
  }

  ghost predicate PathNodes(g: Graph, letters: string, first: nat) {
    forall k: nat | k < |letters| :: IsPathNode(g, letters, first, k)
  }

  ghost predicate Grown(s: State, letters: string, t: State)
    requires WellFormed(s) && letters != ""
  {
    var n, last := |s.unchecked|, Last(s);
    && t.nextId == s.nextId + |letters| && t.root == s.root && t.minimized == s.minimized
    && t.previousWord == s.previousWord
    && |t.unchecked| == n + |letters| && t.unchecked[..n] == s.unchecked
    && (forall k :: 0 <= k < |letters| ==>
          t.unchecked[n + k] == Unchecked(if k == 0 then last else s.nextId + k - 1, letters[k], s.nextId + k))
    && PathNodes(t.nodes, letters, s.nextId)
    && last in t.nodes && t.nodes[last] == s.nodes[last].(edges := s.nodes[last].edges[letters[0] := s.nextId])
    && (forall id :: id in s.nodes && id != last ==> id in t.nodes && t.nodes[id] == s.nodes[id])
  }

  lemma {:induction false} GrowAllIsPath(s: State, letters: string)
    requires WellFormed(s) && letters != ""
    ensures Grown(s, letters, GrowAll(s, letters))
    decreases |letters|
  {
    var next, rest := Grow(s, letters[0]), letters[1..];
    assert s.nextId !in s.nodes;
    if rest != "" {
      GrowAllIsPath(next, rest);
      GrownFurther(s, letters, next, GrowAll(next, rest));
    } else {
      assert letters == [letters[0]];
    }
  }

  lemma GrownFurther(s: State, letters: string, next: State, t: State)
    requires WellFormed(s) && |letters| > 1 && next == Grow(s, letters[0]) && Grown(next, letters[1..], t)
    ensures Grown(s, letters, t)
  {
    var n, rest := |s.unchecked|, letters[1..];
    assert Last(next) == s.nextId && s.nextId !in s.nodes;
    assert t.unchecked[..n + 1] == s.unchecked + [Unchecked(Last(s), letters[0], s.nextId)];
    assert t.unchecked[..n] == t.unchecked[..n + 1][..n] && t.unchecked[n] == t.unchecked[..n + 1][n];
    forall k | 0 <= k < |letters|
      ensures t.unchecked[n + k] == Unchecked(if k == 0 then Last(s) else s.nextId + k - 1, letters[k], s.nextId + k)
    {
      if k > 0 {
        assert t.unchecked[n + 1 + (k - 1)].letter == rest[k - 1];
      }
    }
    assert next.nodes[Last(next)] == BLANK;
    LongerPath(t.nodes, letters, s.nextId);
  }

  lemma LongerPath(g: Graph, letters: string, first: nat)
    requires |letters| > 1 && PathNodes(g, letters[1..], first + 1)
    requires first in g && g[first] == Node(false, map[letters[1] := first + 1])
    ensures PathNodes(g, letters, first)
  {
    forall k: nat | k < |letters| ensures IsPathNode(g, letters, first, k) {
      if k > 0 {
        assert IsPathNode(g, letters[1..], first + 1, k - 1);
      }
    }
  }

  /** Unchecked nodes with new strings, all different, are registered as they are. */
  lemma {:induction false} AllRegistered(s: State)
    requires WellFormed(s)
    requires forall k :: 0 <= k < |s.unchecked| ==> Key(s.nodes[s.unchecked[k].child]) !in s.minimized
    requires forall j, k :: 0 <= j < k < |s.unchecked| ==>
      Key(s.nodes[s.unchecked[j].child]) != Key(s.nodes[s.unchecked[k].child])
    ensures Minimize(s, 0).nodes == s.nodes && Minimize(s, 0).root == s.root
    decreases |s.unchecked|
  {
    hide Key;
    if |s.unchecked| > 0 {
      AllRegistered(Pop(s));
    }
  }

  // ---------- the first two words ----------

  ghost predicate At(s: State, id: nat, node: Node) {
    id in s.nodes && s.nodes[id] == node
  }

  ghost predicate FirstIn(c: Start, s: State) {
    && WellFormed(s) && s.root == c.root && s.nextId == c.root + 3 && s.previousWord == [c.x, c.x]
    && s.minimized == map[]
    && s.unchecked == [Unchecked(c.root, c.x, c.root + 1), Unchecked(c.root + 1, c.x, c.Leaf())]
    && At(s, c.root, Node(false, map[c.x := c.root + 1])) && At(s, c.root + 1, Node(false, map[c.x := c.Leaf()]))
    && At(s, c.Leaf(), LEAF)
  }

  ghost predicate SecondStart(c: Start, s: State) {
    && WellFormed(s) && s.root == c.root && s.nextId == c.root + 3
    && s.minimized == map[Key(LEAF) := c.Leaf()] && s.unchecked == [Unchecked(c.root, c.x, c.root + 1)]
    && At(s, c.root, Node(false, map[c.x := c.root + 1])) && At(s, c.root + 1, Node(false, map[c.x := c.Leaf()]))
    && At(s, c.Leaf(), LEAF)
  }

  ghost predicate SecondIn(c: Start, s: State) {
    && WellFormed(s) && s.root == c.root && s.nextId == c.root + 4 && s.previousWord == [c.x, c.y]
    && s.minimized == map[Key(LEAF) := c.Leaf()]
    && s.unchecked == [Unchecked(c.root, c.x, c.root + 1), Unchecked(c.root + 1, c.y, c.root + 3)]
    && At(s, c.root, Node(false, map[c.x := c.root + 1]))
    && At(s, c.root + 1, Node(false, map[c.x := c.Leaf(), c.y := c.root + 3]))
    && At(s, c.Leaf(), LEAF) && At(s, c.root + 3, LEAF)
  }

  ghost function Registered(c: Start): map<string, nat> {
    map[Key(LEAF) := c.Leaf(), Key(c.Fork()) := c.root + 1]
  }

  /** Both words, minimized: the leaf and the fork are registered. */
  ghost predicate ThirdStart(c: Start, s: State) {
    && WellFormed(s) && s.root == c.root && s.nextId == c.root + 4 && s.unchecked == []
    && s.minimized == Registered(c)
    && At(s, c.root, Node(false, map[c.x := c.root + 1])) && At(s, c.root + 1, c.Fork()) && At(s, c.Leaf(), LEAF)
  }

  lemma TwoLetters(s: State, c: char, d: char)
    requires WellFormed(s)
    ensures GrowAll(s, [c, d]) == Grow(Grow(s, c), d)
  {
    hide Grow, WellFormed;
    assert [c, d][1..] == [d];
    OneLetter(Grow(s, c), d);
  }

  lemma OneLetter(s: State, c: char)
    requires WellFormed(s)
    ensures GrowAll(s, [c]) == Grow(s, c)
  {
    hide Grow, WellFormed;
    assert [c][1..] == "" && GrowAll(Grow(s, c), "") == Grow(s, c);
  }

  lemma StartWellFormed(c: Start)
    requires c.Ok()
    ensures WellFormed(Initial(c.nodes, c.root))
  {
  }

  lemma FirstWord(c: Start)
    requires c.Ok()
    ensures WellFormed(Initial(c.nodes, c.root)) && FirstIn(c, Insert(Initial(c.nodes, c.root), [c.x, c.x]))
  {
    hide WellFormed, GrowAll, Minimize;
    StartWellFormed(c);
    var s, word := Initial(c.nodes, c.root), [c.x, c.x];
    Renamed(s, word);
    assert CommonPrefix(word, "") == 0 && word[0..] == word;
    assert Minimize(s, 0) == s by { NothingToMinimize(s, 0); }
    TwoLetters(s.(previousWord := word), c.x, c.x);
  }

  lemma NothingToMinimize(s: State, downTo: nat)
    requires WellFormed(s) && |s.unchecked| <= downTo
    ensures Minimize(s, downTo) == s
  {
  }

  lemma FirstPopped(c: Start, s: State)
    requires FirstIn(c, s)
    ensures SecondStart(c, Minimize(s, 1))
  {
    hide Key, WellFormed;
    assert s.unchecked[..1] == [Unchecked(c.root, c.x, c.root + 1)];
    NothingToMinimize(Pop(s), 1);
    assert Minimize(s, 1) == Pop(s);
  }

  lemma SharedLetter(x: char, y: char)
    requires x != y
    ensures CommonPrefix([x, y], [x, x]) == 1
  {
    assert [x, y][1..] == [y] && [x, x][1..] == [x] && CommonPrefix([y], [x]) == 0;
  }

  lemma SecondWord(c: Start, s: State)
    requires c.Ok() && FirstIn(c, s)
    ensures SecondIn(c, Insert(s, [c.x, c.y]))
  {
    hide Key, CommonPrefix, Minimize, WellFormed, GrowAll, Grow, MarkFinal;
    var word := [c.x, c.y];
    SharedLetter(c.x, c.y);
    FirstPopped(c, s);
    var t := Minimize(s, 1);
    Renamed(t, word);
    assert word[1..] == [c.y];
    OneLetter(t.(previousWord := word), c.y);
    SecondGrown(c, t.(previousWord := word));
  }

  lemma SecondGrown(c: Start, s: State)
    requires c.Ok() && SecondStart(c, s) && s.previousWord == [c.x, c.y]
    ensures SecondIn(c, MarkFinal(Grow(s, c.y)))
  {
    hide Key, WellFormed;
    assert map[c.x := c.Leaf()][c.y := c.root + 3] == map[c.x := c.Leaf(), c.y := c.root + 3];
  }

  lemma BothPopped(c: Start, s: State)
    requires c.Ok() && SecondIn(c, s)
    ensures ThirdStart(c, Minimize(s, 0))
  {
    hide Key, WellFormed;
    ForkIsNoLeaf(c);
    assert map[c.x := c.Leaf(), c.y := c.root + 3][c.y := c.Leaf()] == c.Fork().edges;
    assert s.unchecked[..1] == [Unchecked(c.root, c.x, c.root + 1)];
    assert Minimize(s, 0) == Minimize(Pop(s), 0) == Minimize(Pop(Pop(s)), 0);
    NothingToMinimize(Pop(Pop(s)), 0);
  }

  lemma ForkIsNoLeaf(c: Start)
    requires c.Ok()
    ensures Key(c.Fork()) != Key(LEAF)
  {
    ForkKey(c);
  }

  // ---------- the third word ----------

  ghost predicate RunNode(c: Start, s: State, k: nat, target: nat) {
    At(s, c.root + 4 + k, Node(false, map[c.x := target]))
  }

  ghost predicate RunsOn(c: Start, s: State, k: nat) {
    RunNode(c, s, k, c.root + 5 + k)
  }

  ghost predicate Head(c: Start, s: State) {
    && At(s, c.root, Node(false, map[c.x := c.root + 1, c.y := c.root + 4]))
    && At(s, c.root + 1, c.Fork()) && At(s, c.Leaf(), LEAF)
  }

  /** The path of the third word, the nodes from number m on being minimized; the run of x leads to the target. */
  ghost predicate OnPath(c: Start, s: State, m: int)
    requires IsDigit(c.y)
  {
    && s.root == c.root && |s.unchecked| == m && m <= c.Run() + 2 && Head(c, s)
    && (forall k | 0 <= k < m ::
          s.unchecked[k] == Unchecked(if k == 0 then c.root else c.root + 3 + k, c.LongWord()[k], c.root + 4 + k))
    && (forall k: nat | k < c.Run() :: RunsOn(c, s, k))
  }

  ghost predicate ThirdIn(c: Start, s: State)
    requires IsDigit(c.y)
  {
    && WellFormed(s) && OnPath(c, s, c.Run() + 2) && s.minimized == Registered(c)
    && At(s, c.Target(), Node(false, map[c.y := c.Target() + 1])) && At(s, c.Target() + 1, LEAF)
  }

  lemma LongWordLetters(c: Start)
    requires IsDigit(c.y)
    ensures var n, word := c.Run(), c.LongWord();
            n > 9 && |word| == n + 2 && word[0] == c.y && word[n + 1] == c.y && forall k | 1 <= k <= n :: word[k] == c.x
  {
    c.TargetReads();
    var n := c.Run();
    forall k | 1 <= k <= n ensures c.LongWord()[k] == c.x {
      assert c.LongWord()[k] == Repeat(c.x, n)[k - 1] && Repeat(c.x, n)[k - 1] in Repeat(c.x, n);
    }
  }

  lemma ThirdWord(c: Start, s: State)
    requires c.Ok() && SecondIn(c, s)
    ensures ThirdIn(c, Insert(s, c.LongWord()))
  {
    hide Key, Minimize, Start.LongWord, Start.Run, WellFormed, GrowAll, Grown, ThirdIn, MarkFinal;
    var word := c.LongWord();
    LongWordLetters(c);
    BothPopped(c, s);
    var t := Minimize(s, 0);
    Renamed(t, word);
    assert CommonPrefix(word, [c.x, c.y]) == 0 && word[0..] == word;
    GrowAllIsPath(t.(previousWord := word), word);
    ThirdGrown(c, t.(previousWord := word), GrowAll(t.(previousWord := word), word));
  }

  lemma ThirdGrown(c: Start, s: State, t: State)
    requires c.Ok() && ThirdStart(c, s) && s.previousWord == c.LongWord() && c.LongWord() != ""
    requires WellFormed(t) && Grown(s, c.LongWord(), t)
    ensures ThirdIn(c, MarkFinal(t))
  {
    hide Start.LongWord, WellFormed, Key, Start.Target, PathNodes;
    LongWordLetters(c);
    ThirdNodes(c, s, t);
    var word, n := c.LongWord(), c.Run();
    forall k | 0 <= k < n + 2
      ensures t.unchecked[k] == Unchecked(if k == 0 then c.root else c.root + 3 + k, word[k], c.root + 4 + k)
    {
      assert t.unchecked[0 + k] == Unchecked(if k == 0 then c.root else c.root + 4 + k - 1, word[k], c.root + 4 + k);
    }
  }

  lemma ThirdNodes(c: Start, s: State, t: State)
    requires c.Ok() && ThirdStart(c, s) && c.LongWord() != ""
    requires WellFormed(t) && Grown(s, c.LongWord(), t)
    ensures var u := MarkFinal(t);
            && (forall k: nat | k < c.Run() :: RunsOn(c, u, k)) && Head(c, u)
            && At(u, c.Target(), Node(false, map[c.y := c.Target() + 1])) && At(u, c.Target() + 1, LEAF)
  {
    hide Start.LongWord, WellFormed, Key, Start.Target;
    LongWordLetters(c);
    var word, n := c.LongWord(), c.Run();
    assert Last(s) == c.root && |s.unchecked| == 0 && s.nextId == c.root + 4;
    assert Last(t) == c.root + 5 + n by { assert t.unchecked[0 + (n + 1)].child == c.root + 4 + (n + 1); }
    forall k: nat | k < n ensures RunsOn(c, MarkFinal(t), k) {
      assert IsPathNode(t.nodes, word, c.root + 4, k);
    }
    assert IsPathNode(t.nodes, word, c.root + 4, n) && IsPathNode(t.nodes, word, c.root + 4, n + 1);
  }

  // ---------- the wrong twin ----------

  /** The run ends in the fork, two letters early. */
  ghost predicate Wrong(c: Start, s: State)
    requires IsDigit(c.y)
  {
    var n := c.Run();
    && n > 9 && s.root == c.root && Head(c, s)
    && (forall k: nat | k < n - 2 :: RunsOn(c, s, k)) && RunNode(c, s, n - 2, c.root + 1)
  }

  ghost predicate EndPopped(c: Start, s: State)
    requires IsDigit(c.y)
  {
    && WellFormed(s) && OnPath(c, s, c.Run() + 1) && s.minimized == Registered(c)
    && At(s, c.Target(), Node(false, map[c.y := c.Leaf()]))
  }

  ghost function RegisteredWithTarget(c: Start): map<string, nat>
    requires IsDigit(c.y)
  {
    Registered(c)[Key(Node(false, map[c.y := c.Leaf()])) := c.Target()]
  }

  ghost predicate TargetPopped(c: Start, s: State)
    requires IsDigit(c.y)
  {
    WellFormed(s) && OnPath(c, s, c.Run()) && s.minimized == RegisteredWithTarget(c)
  }

  ghost predicate TwinPopped(c: Start, s: State)
    requires IsDigit(c.y)
  {
    && WellFormed(s) && Wrong(c, s) && |s.unchecked| == c.Run() - 1 && s.minimized == RegisteredWithTarget(c)
    && forall k | 0 <= k < c.Run() - 1 :: s.unchecked[k].child == c.root + 4 + k
  }

  /** The end of the third word is a leaf like the first. */
  lemma PopEnd(c: Start, s: State)
    requires c.Ok() && ThirdIn(c, s)
    ensures EndPopped(c, Pop(s))
  {
    hide Key, Start.LongWord, Start.Target, WellFormed;
    LongWordLetters(c);
    ForkIsNoLeaf(c);
    var n := c.Run();
    assert s.unchecked[n + 1] == Unchecked(c.Target(), c.y, c.Target() + 1);
    assert map[c.y := c.Target() + 1][c.y := c.Leaf()] == map[c.y := c.Leaf()];
    forall k: nat | k < n ensures RunsOn(c, Pop(s), k) {
      assert RunsOn(c, s, k);
    }
  }

  /** The target is new. */
  lemma PopTarget(c: Start, s: State)
    requires c.Ok() && EndPopped(c, s)
    ensures TargetPopped(c, Pop(s))
  {
    hide Key, Start.LongWord, Start.Target, WellFormed;
    LongWordLetters(c);
    SameKey(c);
    EdgeKeysDiffer(c.y, c.Leaf(), c.x, c.Target());
    NoLeafKey(c.y, c.Leaf());
    assert s.unchecked[c.Run()].child == c.Target();
    forall k: nat | k < c.Run() ensures RunsOn(c, Pop(s), k) {
      assert RunsOn(c, s, k);
    }
  }

  lemma ForkIsRegistered(c: Start)
    requires c.Ok()
    ensures Key(c.Fork()) in RegisteredWithTarget(c) && RegisteredWithTarget(c)[Key(c.Fork())] == c.root + 1
  {
    hide Key, Start.Target;
    SameKey(c);
    EdgeKeysDiffer(c.y, c.Leaf(), c.x, c.Target());
  }

  /** The node before the target is taken for the fork. */
  lemma PopTwin(c: Start, s: State)
    requires c.Ok() && TargetPopped(c, s)
    ensures TwinPopped(c, Pop(s))
  {
    hide Key, Start.LongWord, Start.Target, WellFormed, RegisteredWithTarget;
    LongWordLetters(c);
    var n := c.Run();
    SameKey(c);
    ForkIsRegistered(c);
    assert RunsOn(c, s, n - 1) && RunsOn(c, s, n - 2);
    assert s.unchecked[n - 1] == Unchecked(c.Target() - 2, c.x, c.Target() - 1);
    assert map[c.x := c.Target() - 1][c.x := c.root + 1] == map[c.x := c.root + 1];
    forall k: nat | k < n - 2 ensures RunsOn(c, Pop(s), k) {
      assert RunsOn(c, s, k);
    }
  }

  /** Node k of the rest of the path has a string of its own. */
  lemma RestKey(c: Start, s: State, k: nat)
    requires c.Ok() && TwinPopped(c, s) && k < c.Run() - 1
    ensures At(s, s.unchecked[k].child, Node(false, map[c.x := if k == c.Run() - 2 then c.root + 1 else c.root + 5 + k]))
    ensures Key(s.nodes[s.unchecked[k].child]) !in s.minimized
  {
    hide Key, Start.Target, WellFormed;
    var target := if k == c.Run() - 2 then c.root + 1 else c.root + 5 + k;
    assert k < c.Run() - 2 ==> RunsOn(c, s, k);
    SameKey(c);
    EdgeKeysDiffer(c.x, target, c.x, c.Target());
    EdgeKeysDiffer(c.x, target, c.y, c.Leaf());
    NoLeafKey(c.x, target);
  }

  /** What is left of the path is registered node by node. */
  lemma RestRegistered(c: Start, s: State)
    requires c.Ok() && TwinPopped(c, s)
    ensures Wrong(c, Minimize(s, 0))
  {
    hide Key, Start.Target, WellFormed, Minimize;
    var n := c.Run();
    forall k | 0 <= k < n - 1
      ensures At(s, s.unchecked[k].child, Node(false, map[c.x := if k == n - 2 then c.root + 1 else c.root + 5 + k]))
      ensures Key(s.nodes[s.unchecked[k].child]) !in s.minimized
    {
      RestKey(c, s, k);
    }
    forall j, k | 0 <= j < k < |s.unchecked|
      ensures Key(s.nodes[s.unchecked[j].child]) != Key(s.nodes[s.unchecked[k].child])
    {
      EdgeKeysDiffer(c.x, c.root + 5 + j, c.x, if k == n - 2 then c.root + 1 else c.root + 5 + k);
    }
    AllRegistered(s);
    SameNodes(c, s, Minimize(s, 0));
  }

  lemma SameNodes(c: Start, s: State, t: State)
    requires IsDigit(c.y) && Wrong(c, s) && t.nodes == s.nodes && t.root == s.root
    ensures Wrong(c, t)
  {
    forall k: nat | k < c.Run() - 2 ensures RunsOn(c, t, k) {
      assert RunsOn(c, s, k);
    }
  }

  lemma ThirdMinimized(c: Start, s: State)
    requires c.Ok() && ThirdIn(c, s)
    ensures Wrong(c, Minimize(s, 0))
  {
    hide Pop, Wrong, Start.LongWord, Start.Run, WellFormed, OnPath;
    LongWordLetters(c);
    PopEnd(c, s);
    PopTarget(c, Pop(s));
    PopTwin(c, Pop(Pop(s)));
    assert |s.unchecked| == c.Run() + 2 by { PathLength(c, s, c.Run() + 2); }
    assert Minimize(s, 0) == Minimize(Pop(s), 0) == Minimize(Pop(Pop(s)), 0) == Minimize(Pop(Pop(Pop(s))), 0);
    RestRegistered(c, Pop(Pop(Pop(s))));
  }

  lemma PathLength(c: Start, s: State, m: int)
    requires IsDigit(c.y) && OnPath(c, s, m)
    ensures |s.unchecked| == m
  {
  }

  // ---------- the wrong language ----------

  /** From run node k, the rest of the run leads to the fork. */
  lemma {:induction false} FollowRun(c: Start, s: State, k: nat, rest: string)
    requires IsDigit(c.y) && Wrong(c, s) && k <= c.Run() - 2
    ensures Accepts(s.nodes, c.root + 4 + k, Repeat(c.x, c.Run() - 1 - k) + rest) == Accepts(s.nodes, c.root + 1, rest)
    decreases c.Run() - k
  {
    hide Start.Target;
    var w := Repeat(c.x, c.Run() - 1 - k) + rest;
    assert w[0] == c.x && w[1..] == Repeat(c.x, c.Run() - 2 - k) + rest;
    if k < c.Run() - 2 {
      assert RunsOn(c, s, k);
      FollowRun(c, s, k + 1, rest);
    } else {
      assert w[1..] == rest;
    }
  }

  lemma ForkRejects(c: Start, s: State)
    requires c.Ok() && Head(c, s)
    ensures !Accepts(s.nodes, c.root + 1, [c.x, c.y])
  {
    assert [c.x, c.y][1..] == [c.y];
  }

  lemma {:induction false} RepeatEnds(x: char, n: nat)
    requires n > 0
    ensures Repeat(x, n) == Repeat(x, n - 1) + [x]
  {
    if n > 1 {
      RepeatEnds(x, n - 1);
    }
  }

  lemma LongWordIsLost(c: Start, s: State)
    requires c.Ok() && Wrong(c, s)
    ensures !Accepts(s.nodes, c.root, c.LongWord())
  {
    hide Repeat, Start.Target;
    var n := c.Run();
    RepeatEnds(c.x, n);
    var run := Repeat(c.x, n - 1);
    assert c.LongWord() == [c.y] + (run + [c.x, c.y]);
    assert c.LongWord()[1..] == run + [c.x, c.y];
    FollowRun(c, s, 0, [c.x, c.y]);
    ForkRejects(c, s);
  }

  // ---------- the theorem ----------

  lemma WordsAreSorted(c: Start)
    requires c.Ok()
    ensures Builder.Sorted(c.Words()) && Builder.Alphabet(c.Words()) <= {c.x, c.y}
  {
    hide Start.LongWord, Start.Run;
    assert [c.x, c.y][1..] == [c.y] && [c.x, c.x][1..] == [c.x];
    LongWordLetters(c);
    assert !Less([c.y], [c.x]) && !Less([c.x, c.y], [c.x, c.x]) && !Less(c.LongWord(), [c.x, c.y]);
    forall w, d | w in c.Words() && d in w ensures d in {c.x, c.y} {
      var k :| 0 <= k < |w| && w[k] == d;
    }
  }

  lemma BuiltWords(c: Start)
    requires c.Ok()
    ensures Wrong(c, Builder.Built(c.nodes, c.root, c.Words()))
  {
    hide Pop, Insert, Minimize, Start.LongWord, Wrong, FirstIn, SecondIn, ThirdIn, WellFormed;
    StartWellFormed(c);
    var s, words := Initial(c.nodes, c.root), c.Words();
    assert words[..0] == [] && words[..1] == [[c.x, c.x]] && words[..2] == [[c.x, c.x], [c.x, c.y]] && words[..3] == words;
    Builder.BuiltNext(s, words, 0);
    Builder.BuiltNext(s, words, 1);
    Builder.BuiltNext(s, words, 2);
    FirstWord(c);
    SecondWord(c, Builder.BuiltFrom(s, words[..1]));
    ThirdWord(c, Builder.BuiltFrom(s, words[..2]));
    ThirdMinimized(c, Builder.BuiltFrom(s, words));
  }

  /** The token set that fromArray builds on these nodes, from this id on, has the words of the list. */
  ghost predicate BuiltRight(nodes: Graph, nextId: nat, words: seq<string>)
    requires Closed(nodes) && forall id :: id in nodes ==> id < nextId
  {
    HasLanguage(Builder.Built(nodes, nextId, words).nodes, nextId, Builder.WordSet(words))
  }

  /** A sorted list of three words over a letter and a later digit, of which the third is lost. */
  lemma LateDigitMisbuilds(nodes: Graph, nextId: nat, x: char, y: char) returns (words: seq<string>)
    requires Closed(nodes) && (forall id :: id in nodes ==> id < nextId) && x < y && IsDigit(y)
    ensures Builder.Sorted(words) && Builder.Alphabet(words) <= {x, y} && |words| == 3
    ensures !Accepts(Builder.Built(nodes, nextId, words).nodes, nextId, words[2])
    ensures !BuiltRight(nodes, nextId, words)
  {
    hide Start.LongWord, Wrong, Accepts;
    var c := Start(nodes, nextId, x, y);
    words := c.Words();
    WordsAreSorted(c);
    BuiltWords(c);
    LongWordIsLost(c, Builder.Built(nodes, nextId, words));
    assert words[2] in words;
  }

  /**
   * Wherever the ids start: all sorted lists over an alphabet are built right if and only if no digit of the
   * alphabet comes after another letter.
   */
  lemma BuilderExactIff(nodes: Graph, nextId: nat, alphabet: set<char>)
    requires Closed(nodes) && forall id :: id in nodes ==> id < nextId
    ensures (forall words | Builder.Sorted(words) && Builder.Alphabet(words) <= alphabet ::
               BuiltRight(nodes, nextId, words))
            <==> NoLateDigit(alphabet)
  {
    hide Builder.Sorted, Builder.Alphabet;
    if NoLateDigit(alphabet) {
      forall words | Builder.Sorted(words) && Builder.Alphabet(words) <= alphabet
        ensures BuiltRight(nodes, nextId, words)
      {
        Builder.BuiltExactly(nodes, nextId, words, alphabet);
      }
    } else {
      var y, x :| y in alphabet && x in alphabet && IsDigit(y) && x < y;
      var words := LateDigitMisbuilds(nodes, nextId, x, y);
    }
  }
}

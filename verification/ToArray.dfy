/** TokenSet.toArray of docs/ui/lunr.js: the words of a token set without cycles. */
module ToArray {
  import opened Automata
  import opened Wrappers
  import opened Intersect

  datatype Pending = Pending(prefix: string, node: nat)

  /** All strings that can be read from id, up to the given length. */
  ghost function Paths(g: Graph, id: nat, depth: nat): set<string>
    decreases depth
  {
    if id !in g then {}
    else if depth == 0 then {""}
    else {""} + set c, p | c in g[id].edges && p in Paths(g, g[id].edges[c], depth - 1) :: [c] + p
  }

  lemma {:induction false} PathsComplete(g: Graph, id: nat, depth: nat, w: string)
    requires Delta(g, id, w).Some? && |w| <= depth
    ensures w in Paths(g, id, depth)
    decreases depth
  {
    if w != "" {
      PathsComplete(g, g[id].edges[w[0]], depth - 1, w[1..]);
      assert w == [w[0]] + w[1..];
    }
  }

  /** `pending` are the strings on the stack, each once and none visited before. */
  ghost predicate StackHolds(stack: seq<Pending>, pending: set<string>, done: set<string>) {
    && |pending| == |stack| && pending !! done
    && (forall i :: 0 <= i < |stack| ==> stack[i].prefix in pending)
    && (forall i, j :: 0 <= i < j < |stack| ==> stack[i].prefix != stack[j].prefix)
  }

  /** Frames lead to their nodes, and every seen string but "" extends a visited one. */
  ghost predicate Frontier(g: Graph, root: nat, stack: seq<Pending>, pending: set<string>, done: set<string>) {
    && StackHolds(stack, pending, done)
    && (forall i :: 0 <= i < |stack| ==> Delta(g, root, stack[i].prefix) == Some(stack[i].node))
    && (forall p :: p in done ==> Delta(g, root, p).Some?)
    && (forall p :: p in done + pending && p != "" ==> p[..|p| - 1] in done)
    && "" in done + pending
  }

  /** The node reached by p has been listed, and its children are visited or pending. */
  ghost predicate Visited(g: Graph, root: nat, p: string, seen: set<string>, words: seq<string>) {
    Delta(g, root, p).Some? && Delta(g, root, p).value in g ==>
      && (g[Delta(g, root, p).value].final ==> p in words)
      && forall c :: c in g[Delta(g, root, p).value].edges ==> p + [c] in seen
  }

  ghost predicate Listed(g: Graph, root: nat, words: seq<string>, done: set<string>) {
    && (forall i, j :: 0 <= i < j < |words| ==> words[i] != words[j])
    && (forall w :: w in words ==> w in done && Accepts(g, root, w))
  }

  lemma {:induction false} AllVisited(g: Graph, root: nat, done: set<string>, words: seq<string>, w: string)
    requires Closed(g) && root in g && "" in done && forall p :: p in done ==> Visited(g, root, p, done, words)
    requires Delta(g, root, w).Some?
    ensures w in done
    decreases |w|
  {
    if w != "" {
      var u, c := w[..|w| - 1], w[|w| - 1];
      assert w == u + [c];
      DeltaStep(g, root, u, c);
      AllVisited(g, root, done, words, u);
      assert Visited(g, root, u, done, words);
    }
  }

  lemma PopHolds(stack: seq<Pending>, pending: set<string>, done: set<string>)
    requires StackHolds(stack, pending, done) && stack != []
    ensures var top := stack[|stack| - 1].prefix;
            top in pending && StackHolds(stack[..|stack| - 1], pending - {top}, done + {top})
  {
    var f, rest := stack[|stack| - 1], stack[..|stack| - 1];
    assert |pending - {f.prefix}| == |rest|;
  }

  lemma ChildUnseen(p: string, seen: set<string>, done: set<string>)
    requires p !in done && forall q :: q in seen && q != "" ==> q[..|q| - 1] in done
    ensures forall c :: p + [c] !in seen
  {
    forall c
      ensures p + [c] !in seen
    {
      assert (p + [c])[..|p + [c]| - 1] == p;
    }
  }

  lemma PopFrame(g: Graph, root: nat, stack: seq<Pending>, pending: set<string>, done: set<string>)
    requires Frontier(g, root, stack, pending, done) && stack != []
    ensures var f, rest := stack[|stack| - 1], stack[..|stack| - 1];
            && Frontier(g, root, rest, pending - {f.prefix}, done + {f.prefix})
            && f.prefix in pending && Delta(g, root, f.prefix) == Some(f.node)
            && (forall c :: f.prefix + [c] !in done + pending)
  {
    hide StackHolds, Delta;
    var f := stack[|stack| - 1];
    PopHolds(stack, pending, done);
    HoldsApart(stack, pending, done);
    ChildUnseen(f.prefix, done + pending, done);
    assert done + {f.prefix} + (pending - {f.prefix}) == done + pending;
  }

  lemma HoldsApart(stack: seq<Pending>, pending: set<string>, done: set<string>)
    requires StackHolds(stack, pending, done)
    ensures pending !! done
  {
  }

  lemma PushHolds(stack: seq<Pending>, pending: set<string>, done: set<string>, f: Pending)
    requires StackHolds(stack, pending, done) && f.prefix !in done && f.prefix !in pending
    ensures StackHolds(stack + [f], pending + {f.prefix}, done)
  {
  }

  lemma PushChild(g: Graph, root: nat, stack: seq<Pending>, pending: set<string>, done: set<string>, f: Pending)
    requires Frontier(g, root, stack, pending, done) && f.prefix !in done && f.prefix !in pending
    requires f.prefix != "" && f.prefix[..|f.prefix| - 1] in done && Delta(g, root, f.prefix) == Some(f.node)
    ensures Frontier(g, root, stack + [f], pending + {f.prefix}, done)
  {
    PushHolds(stack, pending, done, f);
  }

  /** The children of the node reached by p along these edges are pending. */
  ghost predicate ChildrenPending(p: string, edges: seq<char>, pending: set<string>) {
    forall i :: 0 <= i < |edges| ==> p + [edges[i]] in pending
  }

  lemma OthersPending(p: string, edges: seq<char>, i: nat, pending: set<string>)
    requires i < |edges| && forall a, b :: 0 <= a < b < |edges| ==> edges[a] != edges[b]
    requires forall j :: i <= j < |edges| ==> p + [edges[j]] !in pending
    requires ChildrenPending(p, edges[..i], pending)
    ensures forall j :: i < j < |edges| ==> p + [edges[j]] !in pending + {p + [edges[i]]}
    ensures ChildrenPending(p, edges[..i + 1], pending + {p + [edges[i]]})
  {
    forall j | i < j < |edges|
      ensures p + [edges[j]] != p + [edges[i]]
    {
      assert (p + [edges[j]])[|p|] == edges[j] && (p + [edges[i]])[|p|] == edges[i];
    }
    assert edges[..i + 1] == edges[..i] + [edges[i]];
  }

  lemma ChildPushed(
    g: Graph, root: nat, f: Pending, edges: seq<char>, i: nat, stack: seq<Pending>, pending: set<string>,
    done: set<string>)
    requires Closed(g) && root in g && f.node in g && Delta(g, root, f.prefix) == Some(f.node) && f.prefix in done
    requires Frontier(g, root, stack, pending, done) && forall c :: f.prefix + [c] !in done
    requires i < |edges| && edges[i] in g[f.node].edges && forall j :: 0 <= j < i ==> edges[j] != edges[i]
    requires forall a, b :: 0 <= a < b < |edges| ==> edges[a] != edges[b]
    requires forall j :: i <= j < |edges| ==> f.prefix + [edges[j]] !in pending
    requires ChildrenPending(f.prefix, edges[..i], pending)
    ensures var top := Pending(f.prefix + [edges[i]], g[f.node].edges[edges[i]]);
            && Frontier(g, root, stack + [top], pending + {top.prefix}, done)
            && (forall j :: i < j < |edges| ==> f.prefix + [edges[j]] !in pending + {top.prefix})
            && ChildrenPending(f.prefix, edges[..i + 1], pending + {top.prefix})
  {
    hide Frontier, Delta;
    var top := Pending(f.prefix + [edges[i]], g[f.node].edges[edges[i]]);
    assert Delta(g, root, top.prefix) == Some(top.node) by { DeltaStep(g, root, f.prefix, edges[i]); }
    assert top.prefix[..|top.prefix| - 1] == f.prefix;
    PushChild(g, root, stack, pending, done, top);
    OthersPending(f.prefix, edges, i, pending);
  }

  /** The `for` loop of `toArray`: the children of a visited node are pushed. */
  method PushChildren(
    ghost root: nat, g: Graph, f: Pending, stack: seq<Pending>, ghost pending: set<string>, ghost done: set<string>)
    returns (stack': seq<Pending>, ghost pending': set<string>)
    requires Closed(g) && root in g && f.node in g && Delta(g, root, f.prefix) == Some(f.node) && f.prefix in done
    requires Frontier(g, root, stack, pending, done)
    requires forall c :: f.prefix + [c] !in done + pending
    ensures Frontier(g, root, stack', pending', done) && pending <= pending'
    ensures forall c :: c in g[f.node].edges ==> f.prefix + [c] in pending'
  {
    hide Frontier, Delta, Closed;
    stack', pending' := stack, pending;
    var edges := Labels(g[f.node].edges);
    var i := 0;
    while i < |edges|
      invariant 0 <= i <= |edges|
      invariant Frontier(g, root, stack', pending', done) && pending <= pending'
      invariant forall j :: i <= j < |edges| ==> f.prefix + [edges[j]] !in pending'
      invariant ChildrenPending(f.prefix, edges[..i], pending')
    {
      var top := Pending(f.prefix + [edges[i]], g[f.node].edges[edges[i]]);
      ChildPushed(g, root, f, edges, i, stack', pending', done);
      stack', pending' := stack' + [top], pending' + {top.prefix};
      i := i + 1;
    }
    assert edges[..i] == edges;
  }

  /** One turn of the loop keeps the record of visited strings. */
  lemma VisitedAfterStep(
    g: Graph, root: nat, done: set<string>, pending: set<string>, pending': set<string>, f: Pending,
    words: seq<string>, words': seq<string>)
    requires forall p :: p in done ==> Visited(g, root, p, done + pending, words)
    requires pending - {f.prefix} <= pending' && Delta(g, root, f.prefix) == Some(f.node) && f.node in g
    requires forall c :: c in g[f.node].edges ==> f.prefix + [c] in pending'
    requires words' == if g[f.node].final then words + [f.prefix] else words
    ensures forall p :: p in done + {f.prefix} ==> Visited(g, root, p, done + {f.prefix} + pending', words')
  {
    forall p | p in done + {f.prefix}
      ensures Visited(g, root, p, done + {f.prefix} + pending', words')
    {
      if p != f.prefix {
        assert Visited(g, root, p, done + pending, words);
      }
    }
  }

  lemma ListedAfterStep(g: Graph, root: nat, words: seq<string>, done: set<string>, f: Pending)
    requires Listed(g, root, words, done) && f.prefix !in done
    requires Delta(g, root, f.prefix) == Some(f.node) && f.node in g
    ensures Listed(g, root, if g[f.node].final then words + [f.prefix] else words, done + {f.prefix})
  {
    AcceptsIsDelta(g, root, f.prefix);
  }

  /** TokenSet.toArray: every word of the token set, each once. */
  method ToArray(g: Graph, root: nat) returns (words: seq<string>)
    requires Closed(g) && root in g && exists depth: nat :: Bounded(g, root, depth)
    ensures forall w :: w in words <==> Accepts(g, root, w)
    ensures forall i, j :: 0 <= i < j < |words| ==> words[i] != words[j]
  {
    ghost var depth: nat :| Bounded(g, root, depth);
    words := [];
    var stack := [Pending("", root)];
    ghost var done: set<string>, pending: set<string> := {}, {""};
    while |stack| > 0
      invariant Frontier(g, root, stack, pending, done) && Listed(g, root, words, done)
      invariant forall p :: p in done ==> Visited(g, root, p, done + pending, words)
      decreases Paths(g, root, depth) - done
    {
      words, stack, pending, done := Turn(root, g, stack, words, pending, done, depth);
    }
    assert pending == {} && done + {} == done;
    forall w | Accepts(g, root, w)
      ensures w in words
    {
      AcceptsIsDelta(g, root, w);
      AllVisited(g, root, done, words, w);
      assert Visited(g, root, w, done, words);
    }
  }

  /** One turn of the stack loop. */
  method Turn(
    ghost root: nat, g: Graph, stack: seq<Pending>, words: seq<string>,
    ghost pending: set<string>, ghost done: set<string>, ghost depth: nat)
    returns (words': seq<string>, stack': seq<Pending>, ghost pending': set<string>, ghost done': set<string>)
    requires Closed(g) && root in g && Bounded(g, root, depth) && stack != []
    requires Frontier(g, root, stack, pending, done) && Listed(g, root, words, done)
    requires forall p :: p in done ==> Visited(g, root, p, done + pending, words)
    ensures Frontier(g, root, stack', pending', done') && Listed(g, root, words', done')
    ensures forall p :: p in done' ==> Visited(g, root, p, done' + pending', words')
    ensures done < done' && done' - done <= Paths(g, root, depth)
  {
    hide Listed, Visited;
    var frame := stack[|stack| - 1];
    PopFrame(g, root, stack, pending, done);
    DeltaInGraph(g, root, frame.prefix);
    PathsComplete(g, root, depth, frame.prefix);
    ListedAfterStep(g, root, words, done, frame);
    words' := if g[frame.node].final then words + [frame.prefix] else words;
    done' := done + {frame.prefix};
    stack', pending' := PushChildren(root, g, frame, stack[..|stack| - 1], pending - {frame.prefix}, done');
    VisitedAfterStep(g, root, done, pending, pending', frame, words, words');
  }
}

/** TokenSet.intersect and TokenSet.toArray of docs/ui/lunr.js. */
module Intersect {
  import opened Automata
  import opened Wrappers
  import opened Worklist
  import opened OutputTree

  /** The keys of a node's edges, in some order. */
  method Labels(edges: map<char, nat>) returns (labels: seq<char>)
    ensures forall c :: c in labels <==> c in edges
    ensures forall i, j :: 0 <= i < j < |labels| ==> labels[i] != labels[j]
    ensures |labels| == |edges.Keys|
  {
    labels := [];
    var rest := edges.Keys;
    while rest != {}
      invariant rest <= edges.Keys && |labels| + |rest| == |edges.Keys|
      invariant forall c :: c in labels <==> c in edges.Keys - rest
      invariant forall i, j :: 0 <= i < j < |labels| ==> labels[i] != labels[j]
      decreases rest
    {
      var c :| c in rest;
      assert c !in labels;
      labels := labels + [c];
      rest := rest - {c};
    }
  }

  lemma {:induction false} DegreeBound(g: Graph) returns (m: nat)
    ensures forall id :: id in g ==> |g[id].edges.Keys| <= m
    decreases |g|
  {
    if g == map[] {
      m := 0;
    } else {
      var id :| id in g;
      var m' := DegreeBound(g - {id});
      m := if m' >= |g[id].edges.Keys| then m' else |g[id].edges.Keys|;
      forall x | x in g
        ensures |g[x].edges.Keys| <= m
      {
        if x != id {
          assert x in g - {id};
        }
      }
    }
  }

  // ---------- intersect ----------

  datatype Frame = Frame(qNode: nat, output: nat, node: nat)

  /** A query edge e that the loop pairs with the index edge c. */
  predicate Pairs(e: char, c: char) {
    e == c || e == WILDCARD
  }

  /** The query node q is reached by reading p: whatever it accepts, b accepts after p. */
  ghost predicate Leads(g: Graph, b: nat, p: string, q: nat) {
    forall v :: QueryAccepts(g, q, v) ==> QueryAccepts(g, b, p + v)
  }

  /** Output nodes stand for paths of the index; final ones for words of both automata. */
  ghost predicate Sound(g0: Graph, idx: nat, b: nat, g: Graph, paths: map<nat, string>) {
    && (forall o :: o in paths ==> Delta(g0, idx, paths[o]).Some?)
    && (forall o :: o in paths && o in g && g[o].final ==>
          paths[o] != "" && Accepts(g0, idx, paths[o]) && QueryAccepts(g0, b, paths[o]))
  }

  ghost predicate FrameOk(g0: Graph, idx: nat, b: nat, paths: map<nat, string>, f: Frame) {
    && f.output in paths && f.qNode in g0 && f.node in g0
    && Delta(g0, idx, paths[f.output]) == Some(f.node)
    && Leads(g0, b, paths[f.output], f.qNode)
  }

  ghost predicate Handled(g0: Graph, g: Graph, frames: set<Frame>, f: Frame, e: char, c: char)
    requires f.qNode in g0 && f.node in g0 && e in g0[f.qNode].edges && c in g0[f.node].edges
  {
    && f.output in g && c in g[f.output].edges && g[f.output].edges[c] in g
    && g0[f.qNode].edges[e] in g0 && g0[f.node].edges[c] in g0
    && Frame(g0[f.qNode].edges[e], g[f.output].edges[c], g0[f.node].edges[c]) in frames
    && (g0[g0[f.qNode].edges[e]].final && g0[g0[f.node].edges[c]].final ==> g[g[f.output].edges[c]].final)
  }

  ghost predicate Processed(g0: Graph, g: Graph, frames: set<Frame>, f: Frame) {
    && f.qNode in g0 && f.node in g0
    && forall e, c :: e in g0[f.qNode].edges && c in g0[f.node].edges && Pairs(e, c) ==>
         Handled(g0, g, frames, f, e, c)
  }

  lemma ProcessedGrows(g0: Graph, g: Graph, g': Graph, frames: set<Frame>, frames': set<Frame>, f: Frame)
    requires Processed(g0, g, frames, f) && Grows(g, g') && frames <= frames'
    ensures Processed(g0, g', frames', f)
  {
    forall e, c | e in g0[f.qNode].edges && c in g0[f.node].edges && Pairs(e, c)
      ensures Handled(g0, g', frames', f, e, c)
    {
      assert Handled(g0, g, frames, f, e, c);
    }
  }

  /** With every frame processed, a word of both automata is accepted below the frame's output node. */
  lemma {:induction false} Complete(g0: Graph, g: Graph, frames: set<Frame>, f: Frame, v: string)
    requires forall f' :: f' in frames ==> Processed(g0, g, frames, f')
    requires f in frames && v != "" && Accepts(g0, f.node, v) && QueryAccepts(g0, f.qNode, v)
    ensures Accepts(g, f.output, v)
    decreases |v|
  {
    var c := v[0];
    var e := if c in g0[f.qNode].edges && QueryAccepts(g0, g0[f.qNode].edges[c], v[1..]) then c else WILDCARD;
    assert Handled(g0, g, frames, f, e, c);
    var next := Frame(g0[f.qNode].edges[e], g[f.output].edges[c], g0[f.node].edges[c]);
    if v[1..] != "" {
      Complete(g0, g, frames, next, v[1..]);
    }
  }

  lemma LeadsStep(g: Graph, b: nat, p: string, q: nat, e: char, c: char)
    requires q in g && e in g[q].edges && Pairs(e, c) && Leads(g, b, p, q)
    ensures Leads(g, b, p + [c], g[q].edges[e])
  {
    forall v | QueryAccepts(g, g[q].edges[e], v)
      ensures QueryAccepts(g, b, p + [c] + v)
    {
      assert ([c] + v)[1..] == v;
      assert QueryAccepts(g, q, [c] + v);
      assert p + ([c] + v) == p + [c] + v;
    }
  }

  /** Everything the loop of `intersect` keeps; `todo` are the frames on the stack. */
  ghost predicate Inv(
    g0: Graph, idx: nat, b: nat, g: Graph, out: nat, paths: map<nat, string>, done: set<Frame>, todo: set<Frame>)
  {
    && Closed(g0) && Extends(g0, g) && paths.Keys !! g0.Keys
    && Tree(g, out, paths) && Sound(g0, idx, b, g, paths)
    && (forall f :: f in done || f in todo ==> FrameOk(g0, idx, b, paths, f))
    && (forall f :: f in done ==> Processed(g0, g, done + todo, f))
  }

  lemma LinkSound(
      g0: Graph, idx: nat, b: nat, g: Graph, out: nat, paths: map<nat, string>, paths': map<nat, string>, nextId: nat,
      f: Frame, e: char, c: char)
    returns (pushed: Frame)
    requires Closed(g0) && Tree(g, out, paths) && Sound(g0, idx, b, g, paths) && FrameOk(g0, idx, b, paths, f)
    requires e in g0[f.qNode].edges && c in g0[f.node].edges && Pairs(e, c) && nextId !in g
    requires var q, n := g0[f.qNode].edges[e], g0[f.node].edges[c];
             paths' == paths[Link(g, nextId, f.output, c, g0[n].final && g0[q].final).0 := paths[f.output] + [c]]
    requires forall x :: x in paths ==> paths'[x] == paths[x]
    ensures var q, n := g0[f.qNode].edges[e], g0[f.node].edges[c];
            var (next, g') := Link(g, nextId, f.output, c, g0[n].final && g0[q].final);
            && Sound(g0, idx, b, g', paths') && pushed == Frame(q, next, n) && FrameOk(g0, idx, b, paths', pushed)
  {
    var q, n := g0[f.qNode].edges[e], g0[f.node].edges[c];
    var final := g0[n].final && g0[q].final;
    var (next, g') := Link(g, nextId, f.output, c, final);
    var p := paths[f.output];
    pushed := Frame(q, next, n);
    LeadsStep(g0, b, p, f.qNode, e, c);
    DeltaStep(g0, idx, p, c);
    if final {
      assert QueryAccepts(g0, q, "");
      assert p + [c] + "" == p + [c];
      AcceptsIsDelta(g0, idx, p + [c]);
    }
    forall o | o in paths' && o in g' && g'[o].final
      ensures paths'[o] != "" && Accepts(g0, idx, paths'[o]) && QueryAccepts(g0, b, paths'[o])
    {
      if o != next || !final {
        assert o in paths && g[o].final;
      }
    }
  }

  /** What stays fixed during one call of `intersect`: the arena on entry, the two automata, the
      output root, a bound on the index paths, and a bound on the pushes per frame. */
  datatype Call = Call(g0: Graph, idx: nat, b: nat, out: nat, depth: nat, width: nat)

  ghost predicate Ok(call: Call, g: Graph, paths: map<nat, string>, done: set<Frame>, todo: set<Frame>) {
    Inv(call.g0, call.idx, call.b, g, call.out, paths, done, todo)
  }

  ghost predicate DepthsOk(call: Call, stack: seq<Frame>, depths: seq<nat>, paths: map<nat, string>) {
    && |depths| == |stack|
    && forall i :: 0 <= i < |stack| ==>
         stack[i].output in paths && depths[i] + |paths[stack[i].output]| == call.depth
  }

  ghost function Elems(stack: seq<Frame>): set<Frame> {
    set f | f in stack
  }

  lemma FramesStayOk(
    g0: Graph, idx: nat, b: nat, paths: map<nat, string>, paths': map<nat, string>, frames: set<Frame>)
    requires forall x :: x in paths ==> x in paths' && paths'[x] == paths[x]
    requires forall d :: d in frames ==> FrameOk(g0, idx, b, paths, d)
    ensures forall d :: d in frames ==> FrameOk(g0, idx, b, paths', d)
  {
    forall d | d in frames
      ensures FrameOk(g0, idx, b, paths', d)
    {
      assert FrameOk(g0, idx, b, paths, d);
    }
  }

  lemma DoneStaysProcessed(
    g0: Graph, g: Graph, g': Graph, done: set<Frame>, frames: set<Frame>, frames': set<Frame>)
    requires Grows(g, g') && frames <= frames' && forall d :: d in done ==> Processed(g0, g, frames, d)
    ensures forall d :: d in done ==> Processed(g0, g', frames', d)
  {
    forall d | d in done
      ensures Processed(g0, g', frames', d)
    {
      ProcessedGrows(g0, g, g', frames, frames', d);
    }
  }

  lemma LinkHandles(g0: Graph, g: Graph, nextId: nat, f: Frame, e: char, c: char)
    requires Closed(g0) && f.qNode in g0 && f.node in g0 && e in g0[f.qNode].edges && c in g0[f.node].edges
    requires f.output in g && (c in g[f.output].edges ==> g[f.output].edges[c] in g) && nextId !in g
    ensures var q, n := g0[f.qNode].edges[e], g0[f.node].edges[c];
            var (next, g') := Link(g, nextId, f.output, c, g0[n].final && g0[q].final);
            Handled(g0, g', {Frame(q, next, n)}, f, e, c)
  {
  }

  lemma OkWith(
    call: Call, g: Graph, paths: map<nat, string>, next: nat, paths': map<nat, string>,
    done: set<Frame>, todo: set<Frame>, pushed: Frame)
    requires Closed(call.g0) && Extends(call.g0, g) && paths.Keys !! call.g0.Keys && next !in call.g0
    requires paths'.Keys == paths.Keys + {next} && Tree(g, call.out, paths')
    requires Sound(call.g0, call.idx, call.b, g, paths')
    requires forall f :: f in done + todo ==> FrameOk(call.g0, call.idx, call.b, paths', f)
    requires FrameOk(call.g0, call.idx, call.b, paths', pushed)
    requires forall f :: f in done ==> Processed(call.g0, g, done + (todo + {pushed}), f)
    ensures Ok(call, g, paths', done, todo + {pushed})
  {
  }

  lemma LinkKeeps(call: Call, g: Graph, nextId: nat, paths: map<nat, string>, f: Frame, e: char, c: char)
    returns (next: nat, g': Graph, pushed: Frame, paths': map<nat, string>)
    requires Closed(call.g0) && Extends(call.g0, g) && paths.Keys !! call.g0.Keys && nextId !in g
    requires Tree(g, call.out, paths) && Sound(call.g0, call.idx, call.b, g, paths)
    requires FrameOk(call.g0, call.idx, call.b, paths, f)
    requires e in call.g0[f.qNode].edges && c in call.g0[f.node].edges && Pairs(e, c)
    requires c in g[f.output].edges ==> g[f.output].edges[c] in g
    ensures var q, n := call.g0[f.qNode].edges[e], call.g0[f.node].edges[c];
            && (next, g') == Link(g, nextId, f.output, c, call.g0[n].final && call.g0[q].final)
            && pushed == Frame(q, next, n)
    ensures paths' == paths[next := paths[f.output] + [c]] && forall x :: x in paths ==> paths'[x] == paths[x]
    ensures Grows(g, g') && Extends(call.g0, g') && next !in call.g0
    ensures Tree(g', call.out, paths') && Sound(call.g0, call.idx, call.b, g', paths')
    ensures FrameOk(call.g0, call.idx, call.b, paths', pushed) && Handled(call.g0, g', {pushed}, f, e, c)
  {
    var q, n := call.g0[f.qNode].edges[e], call.g0[f.node].edges[c];
    var final := call.g0[n].final && call.g0[q].final;
    var link := Link(g, nextId, f.output, c, final);
    next, g' := link.0, link.1;
    paths' := LinkTree(g, call.out, paths, nextId, f.output, c, final);
    pushed := LinkSound(call.g0, call.idx, call.b, g, call.out, paths, paths', nextId, f, e, c);
    LinkGrows(g, nextId, f.output, c, final);
    LinkHandles(call.g0, g, nextId, f, e, c);
    LinkApart(call.g0, g, call.out, paths, nextId, f.output, c, final);
  }

  lemma OkAfterLink(
    call: Call, g: Graph, g': Graph, paths: map<nat, string>, next: nat, paths': map<nat, string>,
    done: set<Frame>, todo: set<Frame>, pushed: Frame)
    requires Ok(call, g, paths, done, todo)
    requires Extends(call.g0, g') && next !in call.g0 && Grows(g, g')
    requires paths'.Keys == paths.Keys + {next} && (forall x :: x in paths ==> paths'[x] == paths[x])
    requires Tree(g', call.out, paths') && Sound(call.g0, call.idx, call.b, g', paths')
    requires FrameOk(call.g0, call.idx, call.b, paths', pushed)
    ensures Ok(call, g', paths', done, todo + {pushed})
  {
    DoneStaysProcessed(call.g0, g, g', done, done + todo, done + (todo + {pushed}));
    FramesStayOk(call.g0, call.idx, call.b, paths, paths', done + todo);
    OkWith(call, g', paths, next, paths', done, todo, pushed);
  }

  lemma OkFacts(
    call: Call, g: Graph, paths: map<nat, string>, done: set<Frame>, todo: set<Frame>, f: Frame)
    requires Ok(call, g, paths, done, todo) && f in todo && Closed(g)
    ensures Closed(call.g0) && Extends(call.g0, g) && paths.Keys !! call.g0.Keys
    ensures Tree(g, call.out, paths) && Sound(call.g0, call.idx, call.b, g, paths)
    ensures FrameOk(call.g0, call.idx, call.b, paths, f) && f.output in g && f.output in paths
    ensures forall id :: id in call.g0 ==> id in g && g[id] == call.g0[id]
    ensures forall c :: c in g[f.output].edges ==> g[f.output].edges[c] in g
    ensures forall id, c :: id in call.g0 && c in call.g0[id].edges ==> call.g0[id].edges[c] in g
  {
    hide Sound, Processed;
  }

  /** The body of the two inner loops for one pair of edges. */
  method Combine(
    arena: Arena, f: Frame, e: char, c: char,
    ghost call: Call, ghost paths: map<nat, string>, ghost done: set<Frame>, ghost todo: set<Frame>)
    returns (pushed: Frame, ghost paths': map<nat, string>)
    requires arena.Valid() && Ok(call, arena.nodes, paths, done, todo) && f in todo
    requires f.qNode in call.g0 && f.node in call.g0
    requires e in call.g0[f.qNode].edges && c in call.g0[f.node].edges && Pairs(e, c)
    modifies arena
    ensures arena.Valid() && Ok(call, arena.nodes, paths', done, todo + {pushed})
    ensures Grows(old(arena.nodes), arena.nodes)
    ensures forall x :: x in paths ==> x in paths' && paths'[x] == paths[x]
    ensures pushed.output in paths' && paths'[pushed.output] == paths[f.output] + [c]
    ensures Handled(call.g0, arena.nodes, {pushed}, f, e, c)
  {
    hide Ok, FrameOk, Tree, Sound, Handled, Grows, Link, Closed, Extends;
    OkFacts(call, arena.nodes, paths, done, todo, f);
    var node, qNode := arena.nodes[f.node].edges[c], arena.nodes[f.qNode].edges[e];
    var final := arena.nodes[node].final && arena.nodes[qNode].final;
    ghost var g, id, g', expected := arena.nodes, 0, arena.nodes, f;
    id, g', expected, paths' := LinkKeeps(call, g, arena.nextId, paths, f, e, c);
    OkAfterLink(call, g, g', paths, id, paths', done, todo, expected);
    var next := LinkNode(arena, f.output, c, final);
    pushed := Frame(qNode, next, node);
  }

  /** The pairs of edge positions that the inner loops have been through before (i, j). */
  ghost predicate HandledUpTo(
    g0: Graph, g: Graph, frames: set<Frame>, f: Frame, qEdges: seq<char>, nEdges: seq<char>, i: nat, j: nat)
    requires f.qNode in g0 && f.node in g0
    requires forall e :: e in qEdges ==> e in g0[f.qNode].edges
    requires forall c :: c in nEdges ==> c in g0[f.node].edges
  {
    forall a, b :: 0 <= a < |qEdges| && 0 <= b < |nEdges| && (a < i || (a == i && b < j))
                   && Pairs(qEdges[a], nEdges[b]) ==>
      Handled(g0, g, frames, f, qEdges[a], nEdges[b])
  }

  lemma HandledNone(
    g0: Graph, g: Graph, frames: set<Frame>, f: Frame, qEdges: seq<char>, nEdges: seq<char>)
    requires f.qNode in g0 && f.node in g0
    requires forall e :: e in qEdges ==> e in g0[f.qNode].edges
    requires forall c :: c in nEdges ==> c in g0[f.node].edges
    ensures HandledUpTo(g0, g, frames, f, qEdges, nEdges, 0, 0)
  {
  }

  lemma HandledNext(
    g0: Graph, g: Graph, g': Graph, frames: set<Frame>, frames': set<Frame>, f: Frame,
    qEdges: seq<char>, nEdges: seq<char>, i: nat, j: nat)
    requires f.qNode in g0 && f.node in g0
    requires forall e :: e in qEdges ==> e in g0[f.qNode].edges
    requires forall c :: c in nEdges ==> c in g0[f.node].edges
    requires i < |qEdges| && j < |nEdges| && Grows(g, g') && frames <= frames'
    requires HandledUpTo(g0, g, frames, f, qEdges, nEdges, i, j)
    requires Pairs(qEdges[i], nEdges[j]) ==> Handled(g0, g', frames', f, qEdges[i], nEdges[j])
    ensures HandledUpTo(g0, g', frames', f, qEdges, nEdges, i, j + 1)
  {
    forall a, b | 0 <= a < |qEdges| && 0 <= b < |nEdges| && (a < i || (a == i && b < j + 1))
                  && Pairs(qEdges[a], nEdges[b])
      ensures Handled(g0, g', frames', f, qEdges[a], nEdges[b])
    {
      if a < i || b < j {
        assert Handled(g0, g, frames, f, qEdges[a], nEdges[b]);
      }
    }
  }

  lemma HandledAll(
    g0: Graph, g: Graph, frames: set<Frame>, f: Frame, qEdges: seq<char>, nEdges: seq<char>)
    requires f.qNode in g0 && f.node in g0
    requires forall e :: e in qEdges <==> e in g0[f.qNode].edges
    requires forall c :: c in nEdges <==> c in g0[f.node].edges
    requires HandledUpTo(g0, g, frames, f, qEdges, nEdges, |qEdges|, 0)
    ensures Processed(g0, g, frames, f)
  {
    forall e, c | e in g0[f.qNode].edges && c in g0[f.node].edges && Pairs(e, c)
      ensures Handled(g0, g, frames, f, e, c)
    {
      var a :| 0 <= a < |qEdges| && qEdges[a] == e;
      var b :| 0 <= b < |nEdges| && nEdges[b] == c;
    }
  }

  /** The stack part of the invariant: where the frames are, how deep, and the weight bound for
      `pushed` frames pushed from the frame f on top of a stack of weight `base`. */
  ghost predicate StackOk(
    call: Call, stack: seq<Frame>, depths: seq<nat>, paths: map<nat, string>, f: Frame, base: nat, pushed: nat)
  {
    && DepthsOk(call, stack, depths, paths)
    && f.output in paths && |paths[f.output]| <= call.depth
    && var d := call.depth - |paths[f.output]|;
       if d == 0 then pushed == 0 && Total(depths, call.width) == base
       else Total(depths, call.width) == base + pushed * Weight(d - 1, call.width)
  }

  lemma StackPush(
    call: Call, stack: seq<Frame>, depths: seq<nat>, paths: map<nat, string>, paths': map<nat, string>,
    f: Frame, base: nat, pushed: nat, top: Frame)
    returns (depths': seq<nat>)
    requires StackOk(call, stack, depths, paths, f, base, pushed)
    requires forall x :: x in paths ==> x in paths' && paths'[x] == paths[x]
    requires top.output in paths' && |paths'[top.output]| == |paths[f.output]| + 1 <= call.depth
    ensures StackOk(call, stack + [top], depths', paths', f, base, pushed + 1)
  {
    var d := call.depth - |paths[f.output]|;
    depths' := depths + [d - 1];
    TotalPush(depths, d - 1, call.width);
    PushOneMore(pushed, Weight(d - 1, call.width));
  }

  lemma StackDrops(
    call: Call, stack: seq<Frame>, depths: seq<nat>, paths: map<nat, string>, f: Frame, base: nat, pushed: nat, d: nat)
    requires StackOk(call, stack, depths, paths, f, base, pushed) && pushed <= call.width
    requires d == call.depth - |paths[f.output]|
    ensures Total(depths, call.width) < base + Weight(d, call.width)
  {
    if d > 0 {
      PushesFit(d, call.width, pushed);
    }
  }

  lemma PathWithinDepth(call: Call, paths: map<nat, string>, g: Graph, done: set<Frame>, todo: set<Frame>, o: nat)
    requires Ok(call, g, paths, done, todo) && Bounded(call.g0, call.idx, call.depth) && o in paths
    ensures |paths[o]| <= call.depth
  {
  }

  lemma OkRetire(call: Call, g: Graph, paths: map<nat, string>, done: set<Frame>, f: Frame, stack: seq<Frame>)
    requires Ok(call, g, paths, done, Elems(stack) + {f}) && Processed(call.g0, g, done + (Elems(stack) + {f}), f)
    ensures Ok(call, g, paths, done + {f}, Elems(stack))
  {
    assert done + (Elems(stack) + {f}) == done + {f} + Elems(stack);
  }

  lemma ElemsPush(stack: seq<Frame>, top: Frame, f: Frame)
    ensures Elems(stack + [top]) + {f} == Elems(stack) + {f} + {top}
  {
  }

  lemma HandledAmongMore(
    g0: Graph, g: Graph, frames: set<Frame>, frames': set<Frame>, f: Frame, e: char, c: char)
    requires f.qNode in g0 && f.node in g0 && e in g0[f.qNode].edges && c in g0[f.node].edges
    requires Handled(g0, g, frames, f, e, c) && frames <= frames'
    ensures Handled(g0, g, frames', f, e, c)
  {
  }

  lemma OutputHasPath(
    call: Call, stack: seq<Frame>, depths: seq<nat>, paths: map<nat, string>, f: Frame, base: nat, pushed: nat)
    requires StackOk(call, stack, depths, paths, f, base, pushed)
    ensures f.output in paths
  {
  }

  lemma GrowsNothing(g: Graph)
    ensures Grows(g, g)
  {
  }

  /** One pair of edges: nothing, or one frame pushed. */
  method PairUp(
    arena: Arena, f: Frame, e: char, c: char, stack: seq<Frame>,
    ghost call: Call, ghost paths: map<nat, string>, ghost depths: seq<nat>, ghost done: set<Frame>,
    ghost todo: set<Frame>, ghost base: nat, ghost pushed: nat)
    returns (stack': seq<Frame>, ghost paths': map<nat, string>, ghost depths': seq<nat>, ghost todo': set<Frame>,
             ghost pushed': nat)
    requires arena.Valid() && Ok(call, arena.nodes, paths, done, todo) && todo == Elems(stack) + {f}
    requires Bounded(call.g0, call.idx, call.depth) && f.qNode in call.g0 && f.node in call.g0
    requires e in call.g0[f.qNode].edges && c in call.g0[f.node].edges
    requires StackOk(call, stack, depths, paths, f, base, pushed)
    modifies arena
    ensures arena.Valid() && Ok(call, arena.nodes, paths', done, todo') && todo' == Elems(stack') + {f}
    ensures StackOk(call, stack', depths', paths', f, base, pushed') && pushed' <= pushed + 1
    ensures paths'[f.output] == paths[f.output] && todo <= todo' && Grows(old(arena.nodes), arena.nodes)
    ensures Pairs(e, c) ==> Handled(call.g0, arena.nodes, done + todo', f, e, c)
  {
    hide Ok, StackOk, Handled, Grows, Elems, Bounded;
    OutputHasPath(call, stack, depths, paths, f, base, pushed);
    GrowsNothing(arena.nodes);
    stack', paths', depths', todo', pushed' := stack, paths, depths, todo, pushed;
    if c == e || e == WILDCARD {
      var top;
      top, paths' := Combine(arena, f, e, c, call, paths, done, todo);
      PathWithinDepth(call, paths', arena.nodes, done, todo + {top}, top.output);
      depths' := StackPush(call, stack, depths, paths, paths', f, base, pushed, top);
      ElemsPush(stack, top, f);
      stack', todo', pushed' := stack + [top], todo + {top}, pushed + 1;
      HandledAmongMore(call.g0, arena.nodes, {top}, done + todo', f, e, c);
    }
  }

  /** The innermost loop: one query edge against all edges of the index node. */
  method PairRow(
    arena: Arena, f: Frame, qEdges: seq<char>, nEdges: seq<char>, i: nat, stack: seq<Frame>,
    ghost call: Call, ghost paths: map<nat, string>, ghost depths: seq<nat>, ghost done: set<Frame>,
    ghost todo: set<Frame>, ghost base: nat, ghost pushed: nat)
    returns (stack': seq<Frame>, ghost paths': map<nat, string>, ghost depths': seq<nat>, ghost todo': set<Frame>,
             ghost pushed': nat)
    requires arena.Valid() && Ok(call, arena.nodes, paths, done, todo) && todo == Elems(stack) + {f}
    requires Bounded(call.g0, call.idx, call.depth) && f.qNode in call.g0 && f.node in call.g0
    requires forall e :: e in qEdges ==> e in call.g0[f.qNode].edges
    requires forall c :: c in nEdges ==> c in call.g0[f.node].edges
    requires StackOk(call, stack, depths, paths, f, base, pushed)
    requires i < |qEdges| && HandledUpTo(call.g0, arena.nodes, done + todo, f, qEdges, nEdges, i, 0)
    modifies arena
    ensures arena.Valid() && Ok(call, arena.nodes, paths', done, todo') && todo' == Elems(stack') + {f}
    ensures StackOk(call, stack', depths', paths', f, base, pushed') && pushed' <= pushed + |nEdges|
    ensures paths'[f.output] == paths[f.output] && todo <= todo'
    ensures HandledUpTo(call.g0, arena.nodes, done + todo', f, qEdges, nEdges, i + 1, 0)
  {
    stack', paths', depths', todo', pushed' := stack, paths, depths, todo, pushed;
    var j := 0;
    while j < |nEdges|
      invariant 0 <= j <= |nEdges| && arena.Valid()
      invariant Ok(call, arena.nodes, paths', done, todo') && todo' == Elems(stack') + {f}
      invariant StackOk(call, stack', depths', paths', f, base, pushed') && pushed' <= pushed + j
      invariant paths'[f.output] == paths[f.output] && todo <= todo'
      invariant HandledUpTo(call.g0, arena.nodes, done + todo', f, qEdges, nEdges, i, j)
    {
      ghost var g, frames := arena.nodes, done + todo';
      stack', paths', depths', todo', pushed' := PairUp(
        arena, f, qEdges[i], nEdges[j], stack', call, paths', depths', done, todo', base, pushed');
      HandledNext(call.g0, g, arena.nodes, frames, done + todo', f, qEdges, nEdges, i, j);
      j := j + 1;
    }
  }

  /** The two inner loops: every query edge against every edge of the index node. */
  method PairAll(
    arena: Arena, f: Frame, qEdges: seq<char>, nEdges: seq<char>, stack: seq<Frame>,
    ghost call: Call, ghost paths: map<nat, string>, ghost depths: seq<nat>, ghost done: set<Frame>,
    ghost todo: set<Frame>, ghost base: nat)
    returns (stack': seq<Frame>, ghost paths': map<nat, string>, ghost depths': seq<nat>, ghost todo': set<Frame>,
             ghost pushed: nat)
    requires arena.Valid() && Ok(call, arena.nodes, paths, done, todo) && todo == Elems(stack) + {f}
    requires Bounded(call.g0, call.idx, call.depth) && f.qNode in call.g0 && f.node in call.g0
    requires forall e :: e in qEdges ==> e in call.g0[f.qNode].edges
    requires forall c :: c in nEdges ==> c in call.g0[f.node].edges
    requires StackOk(call, stack, depths, paths, f, base, 0)
    modifies arena
    ensures arena.Valid() && Ok(call, arena.nodes, paths', done, todo') && todo' == Elems(stack') + {f}
    ensures StackOk(call, stack', depths', paths', f, base, pushed) && pushed <= |qEdges| * |nEdges|
    ensures paths'[f.output] == paths[f.output] && todo <= todo'
    ensures HandledUpTo(call.g0, arena.nodes, done + todo', f, qEdges, nEdges, |qEdges|, 0)
  {
    hide Ok, HandledUpTo;
    stack', paths', depths', todo', pushed := stack, paths, depths, todo, 0;
    HandledNone(call.g0, arena.nodes, done + todo, f, qEdges, nEdges);
    var i := 0;
    while i < |qEdges|
      invariant 0 <= i <= |qEdges| && arena.Valid()
      invariant Ok(call, arena.nodes, paths', done, todo') && todo' == Elems(stack') + {f}
      invariant StackOk(call, stack', depths', paths', f, base, pushed) && pushed <= i * |nEdges|
      invariant paths'[f.output] == paths[f.output] && todo <= todo'
      invariant HandledUpTo(call.g0, arena.nodes, done + todo', f, qEdges, nEdges, i, 0)
    {
      stack', paths', depths', todo', pushed := PairRow(
        arena, f, qEdges, nEdges, i, stack', call, paths', depths', done, todo', base, pushed);
      PushOneMore(i, |nEdges|);
      i := i + 1;
    }
  }

  /** One turn of the stack loop, after the pop of f. */
  method ExpandFrame(
    arena: Arena, f: Frame, stack: seq<Frame>,
    ghost call: Call, ghost paths: map<nat, string>, ghost depths: seq<nat>, ghost done: set<Frame>, ghost d: nat)
    returns (stack': seq<Frame>, ghost paths': map<nat, string>, ghost depths': seq<nat>)
    requires arena.Valid() && Ok(call, arena.nodes, paths, done, Elems(stack) + {f})
    requires Bounded(call.g0, call.idx, call.depth) && f.qNode in call.g0 && f.node in call.g0
    requires WidthOk(call) && DepthsOk(call, stack, depths, paths) && f.output in paths && |paths[f.output]| + d == call.depth
    modifies arena
    ensures arena.Valid() && Ok(call, arena.nodes, paths', done + {f}, Elems(stack'))
    ensures DepthsOk(call, stack', depths', paths') && Elems(stack) <= Elems(stack') + {f}
    ensures Total(depths', call.width) < Total(depths, call.width) + Weight(d, call.width)
  {
    hide Ok, HandledUpTo, WidthOk, Bounded, Total, Weight;
    FrameReady(call, arena.nodes, paths, done, stack, f, depths);
    var qEdges := Labels(arena.nodes[f.qNode].edges);
    var nEdges := Labels(arena.nodes[f.node].edges);
    ghost var base := Total(depths, call.width);
    ghost var todo, pushed;
    stack', paths', depths', todo, pushed := PairAll(
      arena, f, qEdges, nEdges, stack, call, paths, depths, done, Elems(stack) + {f}, base);
    HandledAll(call.g0, arena.nodes, done + todo, f, qEdges, nEdges);
    OkRetire(call, arena.nodes, paths', done, f, stack');
    StackDrops(call, stack', depths', paths', f, base, pushed, d);
  }

  lemma FrameReady(
    call: Call, g: Graph, paths: map<nat, string>, done: set<Frame>, stack: seq<Frame>, f: Frame, depths: seq<nat>)
    requires Ok(call, g, paths, done, Elems(stack) + {f}) && f.qNode in call.g0 && f.node in call.g0
    requires WidthOk(call) && DepthsOk(call, stack, depths, paths)
    requires f.output in paths && |paths[f.output]| <= call.depth
    ensures f.qNode in g && g[f.qNode] == call.g0[f.qNode] && f.node in g && g[f.node] == call.g0[f.node]
    ensures |call.g0[f.qNode].edges.Keys| * |call.g0[f.node].edges.Keys| <= call.width
    ensures StackOk(call, stack, depths, paths, f, Total(depths, call.width), 0)
  {
  }

  /** No frame can push more frames than this. */
  ghost predicate WidthOk(call: Call) {
    forall q, n :: q in call.g0 && n in call.g0 ==>
      |call.g0[q].edges.Keys| * |call.g0[n].edges.Keys| <= call.width
  }

  lemma InitialCall(g: Graph, idx: nat, b: nat, out: nat) returns (call: Call)
    requires exists depth: nat :: Bounded(g, idx, depth)
    ensures call.g0 == g && call.idx == idx && call.b == b && call.out == out && Bounded(g, idx, call.depth)
    ensures WidthOk(call)
  {
    var depth: nat :| Bounded(g, idx, depth);
    var m := DegreeBound(g);
    call := Call(g, idx, b, out, depth, m * m);
    forall q, n | q in g && n in g
      ensures |g[q].edges.Keys| * |g[n].edges.Keys| <= m * m
    {
      MulMonotone(|g[q].edges.Keys|, m, |g[n].edges.Keys|);
      MulMonotone(|g[n].edges.Keys|, m, m);
    }
  }

  lemma InitialOk(call: Call)
    requires Closed(call.g0) && call.idx in call.g0 && call.b in call.g0 && call.out !in call.g0
    ensures Ok(call, call.g0[call.out := BLANK], map[call.out := ""], {}, {Frame(call.b, call.out, call.idx)})
  {
    assert Leads(call.g0, call.b, "", call.b) by {
      assert forall v: string :: "" + v == v;
    }
  }

  lemma TopFrame(
    call: Call, g: Graph, paths: map<nat, string>, done: set<Frame>, stack: seq<Frame>, depths: seq<nat>)
    returns (frame: Frame, rest: seq<Frame>, d: nat)
    requires Ok(call, g, paths, done, Elems(stack)) && DepthsOk(call, stack, depths, paths) && stack != []
    ensures frame == stack[|stack| - 1] && rest == stack[..|stack| - 1] && d == depths[|stack| - 1]
    ensures Ok(call, g, paths, done, Elems(rest) + {frame}) && frame.qNode in call.g0 && frame.node in call.g0
    ensures frame.output in paths && |paths[frame.output]| + d == call.depth
    ensures done + Elems(stack) == done + {frame} + Elems(rest)
    ensures |depths| == |stack| && DepthsOk(call, rest, depths[..|stack| - 1], paths)
    ensures Total(depths, call.width) == Total(depths[..|stack| - 1], call.width) + Weight(d, call.width)
  {
    hide Ok, Weight;
    frame, rest, d := stack[|stack| - 1], stack[..|stack| - 1], depths[|stack| - 1];
    assert stack == rest + [frame];
    assert Elems(rest) + {frame} == Elems(stack);
    assert frame in Elems(stack);
    PendingFrameOk(call, g, paths, done, Elems(stack), frame);
  }

  lemma PendingFrameOk(
    call: Call, g: Graph, paths: map<nat, string>, done: set<Frame>, todo: set<Frame>, frame: Frame)
    requires Ok(call, g, paths, done, todo) && frame in todo
    ensures frame.qNode in call.g0 && frame.node in call.g0 && frame.output in paths
  {
    assert FrameOk(call.g0, call.idx, call.b, paths, frame);
  }

  lemma IntersectResult(call: Call, g: Graph, paths: map<nat, string>, done: set<Frame>, w: string)
    requires Ok(call, g, paths, done, {}) && Frame(call.b, call.out, call.idx) in done
    ensures Accepts(g, call.out, w) <==>
            w != "" && Accepts(call.g0, call.idx, w) && QueryAccepts(call.g0, call.b, w)
    ensures Delta(g, call.out, w).Some? ==> Delta(call.g0, call.idx, w).Some?
  {
    assert done + {} == done;
    if Delta(g, call.out, w).Some? {
      TreePath(g, call.out, paths, call.out, w);
      assert "" + w == w;
    }
    AcceptsIsDelta(g, call.out, w);
    if w != "" && Accepts(call.g0, call.idx, w) && QueryAccepts(call.g0, call.b, w) {
      Complete(call.g0, g, done, Frame(call.b, call.out, call.idx), w);
    }
  }

  lemma ResultForAll(call: Call, g: Graph, paths: map<nat, string>, done: set<Frame>)
    requires Ok(call, g, paths, done, {}) && Frame(call.b, call.out, call.idx) in done
    requires Bounded(call.g0, call.idx, call.depth)
    ensures forall w :: Accepts(g, call.out, w) <==>
              w != "" && Accepts(call.g0, call.idx, w) && QueryAccepts(call.g0, call.b, w)
    ensures Bounded(g, call.out, call.depth) && Extends(call.g0, g) && call.out in g
  {
    forall w
      ensures Accepts(g, call.out, w) <==>
              w != "" && Accepts(call.g0, call.idx, w) && QueryAccepts(call.g0, call.b, w)
      ensures Delta(g, call.out, w).Some? ==> |w| <= call.depth
    {
      IntersectResult(call, g, paths, done, w);
    }
  }

  /** TokenSet.intersect of an index without cycles and any query token set, wildcard loops included. */
  method Intersect(arena: Arena, idx: nat, b: nat) returns (output: nat)
    requires arena.Valid() && idx in arena.nodes && b in arena.nodes
    requires exists depth: nat :: Bounded(arena.nodes, idx, depth)
    modifies arena
    ensures arena.Valid() && Extends(old(arena.nodes), arena.nodes) && output in arena.nodes
    ensures forall w :: Accepts(arena.nodes, output, w) <==>
              w != "" && Accepts(old(arena.nodes), idx, w) && QueryAccepts(old(arena.nodes), b, w)
    ensures exists depth: nat :: Bounded(arena.nodes, output, depth)
  {
    hide Ok, DepthsOk, WidthOk, Bounded;
    ghost var g0 := arena.nodes;
    output := arena.New();
    ghost var call := InitialCall(g0, idx, b, output);
    InitialOk(call);
    ghost var paths: map<nat, string>, depths: seq<nat> := map[output := ""], [call.depth];
    ghost var done: set<Frame> := {};
    var stack := [Frame(b, output, idx)];
    assert Elems(stack) == {Frame(b, output, idx)};
    assert DepthsOk(call, stack, depths, paths) by { SingleDepth(call, stack[0], paths); }
    while |stack| > 0
      invariant arena.Valid() && Ok(call, arena.nodes, paths, done, Elems(stack))
      invariant DepthsOk(call, stack, depths, paths)
      invariant Frame(b, output, idx) in done + Elems(stack)
      decreases Total(depths, call.width)
    {
      ghost var frame, rest, d := TopFrame(call, arena.nodes, paths, done, stack, depths);
      ghost var restDepths := depths[..|stack| - 1];
      stack, paths, depths :=
        ExpandFrame(arena, stack[|stack| - 1], stack[..|stack| - 1], call, paths, restDepths, done, d);
      done := done + {frame};
    }
    assert Elems(stack) == {};
    ResultForAll(call, arena.nodes, paths, done);
  }

  lemma SingleDepth(call: Call, f: Frame, paths: map<nat, string>)
    requires f.output in paths && paths[f.output] == ""
    ensures DepthsOk(call, [f], [call.depth], paths)
  {
  }
}

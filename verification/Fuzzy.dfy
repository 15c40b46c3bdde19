/** TokenSet.fromFuzzyString of docs/ui/lunr.js: the query automaton of a term with an edit distance. */
module Fuzzy {
  import opened Automata
  import opened Wrappers
  import opened OutputTree
  import opened Worklist

  /** A character of the term against a character of a word; a '*' in the term fits any character. */
  predicate Fits(c: char, x: char) {
    c == WILDCARD || c == x
  }

  /** w is reached from s by at most k edits taken left to right: insertions, deletions, substitutions
      and swaps of adjacent characters, the first of which stays open to further edits. */
  predicate Within(s: string, k: nat, w: string)
    decreases |s| + k
  {
    || (s == "" && w == "")
    || (s != "" && w != "" && Fits(s[0], w[0]) && Within(s[1..], k, w[1..]))
    || (k > 0 && w != "" && Within(s, k - 1, w[1..]))
    || (k > 0 && s != "" && Within(s[1..], k - 1, w))
    || (k > 0 && s != "" && w != "" && Within(s[1..], k - 1, w[1..]))
    || (k > 0 && |s| > 1 && w != "" && Fits(s[1], w[0]) && Within([s[0]] + s[2..], k - 1, w[1..]))
  }

  lemma {:induction false} MoreEdits(s: string, k: nat, w: string)
    requires Within(s, k, w)
    ensures Within(s, k + 1, w)
    decreases |s| + k
  {
    if s == "" && w == "" {
    } else if s != "" && w != "" && Fits(s[0], w[0]) && Within(s[1..], k, w[1..]) {
      MoreEdits(s[1..], k, w[1..]);
    } else if k > 0 && w != "" && Within(s, k - 1, w[1..]) {
      MoreEdits(s, k - 1, w[1..]);
    } else if k > 0 && s != "" && Within(s[1..], k - 1, w) {
      MoreEdits(s[1..], k - 1, w);
    } else if k > 0 && s != "" && w != "" && Within(s[1..], k - 1, w[1..]) {
      MoreEdits(s[1..], k - 1, w[1..]);
    } else {
      MoreEdits([s[0]] + s[2..], k - 1, w[1..]);
    }
  }

  datatype Frame = Frame(node: nat, edits: nat, str: string)

  /** A step of the loop body: follow or create the edge and push the rest. */
  datatype Move = Move(letter: char, edits: nat, str: string)

  /** The pushes below the frame's node: no edit, insertion, substitution, transposition. */
  function Moves(edits: nat, str: string): set<Move> {
    (if str != "" then {Move(str[0], edits, str[1..])} else {})
    + (if edits > 0 then {Move(WILDCARD, edits - 1, str)} else {})
    + (if edits > 0 && str != "" then {Move(WILDCARD, edits - 1, str[1..])} else {})
    + (if edits > 0 && |str| > 1 then {Move(str[1], edits - 1, [str[0]] + str[2..])} else {})
  }

  // ---------- the invariant ----------

  ghost predicate Spells(p: string, w: string) {
    |p| == |w| && forall i :: 0 <= i < |p| ==> Fits(p[i], w[i])
  }

  datatype Call = Call(g0: Graph, root: nat, str: string, edits: nat)

  /** Whatever completes the frame's rest completes its path to a word within the distance. */
  ghost predicate FrameSound(call: Call, paths: map<nat, string>, f: Frame) {
    && f.node in paths
    && (paths[f.node] == "" ==> |f.str| <= |call.str|)
    && forall u, v :: Spells(paths[f.node], u) && Within(f.str, f.edits, v) ==> Within(call.str, call.edits, u + v)
  }

  ghost predicate NodeSound(call: Call, paths: map<nat, string>, o: nat)
    requires o in paths
  {
    && (paths[o] == "" ==> call.str != "")
    && forall u :: Spells(paths[o], u) ==> Within(call.str, call.edits, u)
  }

  ghost predicate Pushed(g: Graph, frames: set<Frame>, f: Frame, m: Move) {
    && f.node in g && m.letter in g[f.node].edges && g[f.node].edges[m.letter] in g
    && Frame(g[f.node].edges[m.letter], m.edits, m.str) in frames
    && (m.str == "" ==> g[g[f.node].edges[m.letter]].final)
  }

  ghost predicate AllPushed(g: Graph, frames: set<Frame>, f: Frame, moves: set<Move>) {
    forall m :: m in moves ==> Pushed(g, frames, f, m)
  }

  /** The deletion of the next character: pushed, or final when it was the last one. */
  ghost predicate Deleted(g: Graph, frames: set<Frame>, f: Frame) {
    && (f.edits > 0 && |f.str| > 1 ==> Frame(f.node, f.edits - 1, f.str[1..]) in frames)
    && (f.edits > 0 && |f.str| == 1 ==> f.node in g && g[f.node].final)
  }

  ghost predicate Processed(g: Graph, frames: set<Frame>, f: Frame) {
    AllPushed(g, frames, f, Moves(f.edits, f.str)) && Deleted(g, frames, f)
  }

  ghost predicate FramesSound(call: Call, paths: map<nat, string>, frames: set<Frame>) {
    forall f :: f in frames ==> FrameSound(call, paths, f)
  }

  ghost predicate AllProcessed(g: Graph, done: set<Frame>, frames: set<Frame>) {
    forall f :: f in done ==> Processed(g, frames, f)
  }

  ghost predicate Shape(call: Call, g: Graph, paths: map<nat, string>) {
    && Closed(call.g0) && Extends(call.g0, g) && paths.Keys !! call.g0.Keys && Tree(g, call.root, paths)
    && forall o :: o in paths && o in g && g[o].final ==> NodeSound(call, paths, o)
  }

  ghost predicate Ok(call: Call, g: Graph, paths: map<nat, string>, done: set<Frame>, todo: set<Frame>) {
    Shape(call, g, paths) && FramesSound(call, paths, done + todo) && AllProcessed(g, done, done + todo)
  }

  // ---------- what the invariant gives in the end ----------

  lemma SpellsNext(call: Call, g: Graph, paths: map<nat, string>, o: nat, c: char, u: string, x: char)
    requires Shape(call, g, paths) && o in paths && o in g && c in g[o].edges && Spells(paths[o], u) && Fits(c, x)
    ensures g[o].edges[c] in paths && Spells(paths[g[o].edges[c]], u + [x])
  {
    hide NodeSound;
    TreeEdge(g, call.root, paths, o, c);
  }

  lemma FinalIsSound(call: Call, g: Graph, paths: map<nat, string>, o: nat, u: string)
    requires Shape(call, g, paths) && o in paths && o in g && g[o].final && Spells(paths[o], u)
    ensures Within(call.str, call.edits, u) && (u == "" ==> call.str != "")
  {
    hide Tree, Within;
    assert NodeSound(call, paths, o);
  }

  lemma {:induction false} Sound(call: Call, g: Graph, paths: map<nat, string>, o: nat, u: string, w: string)
    requires Shape(call, g, paths) && o in paths && Spells(paths[o], u) && QueryAccepts(g, o, w)
    ensures Within(call.str, call.edits, u + w) && (u + w == "" ==> call.str != "")
    decreases |w|
  {
    hide Shape, Spells, Within;
    if w == "" {
      assert u + w == u;
      FinalIsSound(call, g, paths, o, u);
    } else {
      var c := if w[0] in g[o].edges && QueryAccepts(g, g[o].edges[w[0]], w[1..]) then w[0] else WILDCARD;
      var next := g[o].edges[c];
      SpellsNext(call, g, paths, o, c, u, w[0]);
      Sound(call, g, paths, next, u + [w[0]], w[1..]);
      assert u + [w[0]] + w[1..] == u + w;
    }
  }

  lemma {:induction false} Complete(g: Graph, frames: set<Frame>, f: Frame, w: string)
    requires AllProcessed(g, frames, frames) && f in frames && Within(f.str, f.edits, w)
    requires f.node in g && (f.str == "" && w == "" ==> g[f.node].final)
    ensures QueryAccepts(g, f.node, w)
    decreases |f.str| + f.edits
  {
    hide AllProcessed;
    var s, k := f.str, f.edits;
    if s == "" && w == "" {
    } else if s != "" && w != "" && Fits(s[0], w[0]) && Within(s[1..], k, w[1..]) {
      CompleteMove(g, frames, f, Move(s[0], k, s[1..]), w);
    } else if k > 0 && w != "" && Within(s, k - 1, w[1..]) {
      CompleteMove(g, frames, f, Move(WILDCARD, k - 1, s), w);
    } else if k > 0 && s != "" && w != "" && Within(s[1..], k - 1, w[1..]) {
      CompleteMove(g, frames, f, Move(WILDCARD, k - 1, s[1..]), w);
    } else if k > 0 && |s| > 1 && w != "" && Fits(s[1], w[0]) && Within([s[0]] + s[2..], k - 1, w[1..]) {
      CompleteMove(g, frames, f, Move(s[1], k - 1, [s[0]] + s[2..]), w);
    } else {
      CompleteDeletion(g, frames, f, w);
    }
  }

  lemma {:induction false} CompleteDeletion(g: Graph, frames: set<Frame>, f: Frame, w: string)
    requires AllProcessed(g, frames, frames) && f in frames && f.node in g
    requires f.edits > 0 && f.str != "" && Within(f.str[1..], f.edits - 1, w)
    ensures QueryAccepts(g, f.node, w)
    decreases |f.str| + f.edits, 1
  {
    hide AllProcessed, Within, QueryAccepts, Fits;
    DeletedOf(g, frames, f);
    EmptyIsAccepted(g, f.node);
    if |f.str| > 1 {
      Complete(g, frames, Frame(f.node, f.edits - 1, f.str[1..]), w);
    } else if w != "" {
      // Deleting the last character and then inserting one is no better than substituting it.
      InsertionOnly(f.str[1..], f.edits - 1, w);
      CompleteMove(g, frames, f, Move(WILDCARD, f.edits - 1, f.str[1..]), w);
    }
  }

  lemma EmptyIsAccepted(g: Graph, id: nat)
    ensures id in g && g[id].final ==> QueryAccepts(g, id, "")
  {
  }

  lemma DeletedOf(g: Graph, frames: set<Frame>, f: Frame)
    requires AllProcessed(g, frames, frames) && f in frames
    ensures Deleted(g, frames, f)
  {
    assert Processed(g, frames, f);
  }

  lemma InsertionOnly(s: string, k: nat, w: string)
    requires s == "" && w != "" && Within(s, k, w)
    ensures Within(s, k, w[1..])
  {
    MoreEdits(s, k - 1, w[1..]);
  }

  lemma {:induction false} CompleteMove(g: Graph, frames: set<Frame>, f: Frame, m: Move, w: string)
    requires AllProcessed(g, frames, frames) && f in frames && m in Moves(f.edits, f.str)
    requires w != "" && Fits(m.letter, w[0]) && Within(m.str, m.edits, w[1..])
    requires |m.str| + m.edits < |f.str| + f.edits
    ensures QueryAccepts(g, f.node, w)
    decreases |f.str| + f.edits, 0
  {
    assert Processed(g, frames, f);
    assert Pushed(g, frames, f, m);
    Complete(g, frames, Frame(g[f.node].edges[m.letter], m.edits, m.str), w[1..]);
  }

  // ---------- one push keeps the invariant ----------

  /** A character that fits the letter, followed by a completion of the move, completes the frame. */
  ghost predicate Justified(f: Frame, m: Move) {
    forall x, v :: Fits(m.letter, x) && Within(m.str, m.edits, v) ==> Within(f.str, f.edits, [x] + v)
  }

  lemma MovesJustified(f: Frame)
    ensures forall m :: m in Moves(f.edits, f.str) ==> Justified(f, m)
  {
    forall m, x, v | m in Moves(f.edits, f.str) && Fits(m.letter, x) && Within(m.str, m.edits, v)
      ensures Within(f.str, f.edits, [x] + v)
    {
      assert ([x] + v)[1..] == v;
    }
  }

  lemma NothingIsWithin(edits: nat)
    ensures Within("", edits, "")
  {
  }

  lemma ChildSound(call: Call, paths: map<nat, string>, paths': map<nat, string>, f: Frame, m: Move, next: nat)
    requires FrameSound(call, paths, f) && Justified(f, m) && paths' == paths[next := paths[f.node] + [m.letter]]
    ensures FrameSound(call, paths', Frame(next, m.edits, m.str))
    ensures m.str == "" ==> NodeSound(call, paths', next)
  {
    hide Within, Fits;
    var p := paths[f.node] + [m.letter];
    forall u, v | Spells(p, u) && Within(m.str, m.edits, v)
      ensures Within(call.str, call.edits, u + v)
    {
      var u0, x := u[..|u| - 1], u[|u| - 1];
      assert Spells(paths[f.node], u0);
      assert Within(f.str, f.edits, [x] + v);
      assert u0 + ([x] + v) == u + v;
    }
    if m.str == "" {
      forall u | Spells(p, u)
        ensures Within(call.str, call.edits, u)
      {
        NothingIsWithin(m.edits);
        assert u + "" == u;
      }
    }
  }

  lemma FramesStaySound(call: Call, paths: map<nat, string>, paths': map<nat, string>, frames: set<Frame>)
    requires FramesSound(call, paths, frames) && forall x :: x in paths ==> x in paths' && paths'[x] == paths[x]
    ensures FramesSound(call, paths', frames)
  {
    forall f | f in frames
      ensures FrameSound(call, paths', f)
    {
      assert FrameSound(call, paths, f);
    }
  }

  lemma AllPushedGrows(
    g: Graph, g': Graph, frames: set<Frame>, frames': set<Frame>, f: Frame, moves: set<Move>)
    requires AllPushed(g, frames, f, moves) && Grows(g, g') && frames <= frames'
    ensures AllPushed(g', frames', f, moves)
  {
    forall m | m in moves
      ensures Pushed(g', frames', f, m)
    {
      assert Pushed(g, frames, f, m);
    }
  }

  lemma AllProcessedGrows(g: Graph, g': Graph, done: set<Frame>, frames: set<Frame>, frames': set<Frame>)
    requires AllProcessed(g, done, frames) && Grows(g, g') && frames <= frames'
    ensures AllProcessed(g', done, frames')
  {
    forall f | f in done
      ensures Processed(g', frames', f)
    {
      assert Processed(g, frames, f);
      AllPushedGrows(g, g', frames, frames', f, Moves(f.edits, f.str));
    }
  }

  lemma ShapeParts(call: Call, g: Graph, paths: map<nat, string>, f: Frame)
    requires Shape(call, g, paths) && FrameSound(call, paths, f)
    ensures f.node in paths && paths.Keys <= g.Keys
    ensures Extends(call.g0, g) && paths.Keys !! call.g0.Keys && Tree(g, call.root, paths)
  {
  }

  lemma LinkShape(call: Call, g: Graph, nextId: nat, paths: map<nat, string>, f: Frame, m: Move)
    returns (next: nat, g': Graph, paths': map<nat, string>)
    requires Shape(call, g, paths) && FrameSound(call, paths, f) && Justified(f, m) && nextId !in g && f.node in g
    requires m.letter in g[f.node].edges ==> g[f.node].edges[m.letter] in g
    ensures (next, g') == Link(g, nextId, f.node, m.letter, m.str == "")
    ensures Shape(call, g', paths') && Grows(g, g') && forall x :: x in paths ==> x in paths' && paths'[x] == paths[x]
    ensures FrameSound(call, paths', Frame(next, m.edits, m.str))
    ensures Pushed(g', {Frame(next, m.edits, m.str)}, f, m)
  {
    hide FrameSound, NodeSound, Justified, Shape, Tree, Extends, Grows, Pushed;
    ShapeParts(call, g, paths, f);
    var link := Link(g, nextId, f.node, m.letter, m.str == "");
    next, g' := link.0, link.1;
    paths' := LinkTree(g, call.root, paths, nextId, f.node, m.letter, m.str == "");
    LinkGrows(g, nextId, f.node, m.letter, m.str == "");
    LinkApart(call.g0, g, call.root, paths, nextId, f.node, m.letter, m.str == "");
    ChildSound(call, paths, paths', f, m, next);
    forall o | o in g'
      ensures g'[o].final ==> (o in g && g[o].final) || (o == next && m.str == "")
    {
      LinkFinals(g, nextId, f.node, m.letter, m.str == "", o);
    }
    ShapeAfterLink(call, g, g', paths, paths', next, m.str == "");
    LinkPushes(g, nextId, f, m);
  }

  lemma LinkPushes(g: Graph, nextId: nat, f: Frame, m: Move)
    requires f.node in g && (m.letter in g[f.node].edges ==> g[f.node].edges[m.letter] in g) && nextId !in g
    ensures var (next, g') := Link(g, nextId, f.node, m.letter, m.str == "");
            Pushed(g', {Frame(next, m.edits, m.str)}, f, m)
  {
    var next := Link(g, nextId, f.node, m.letter, m.str == "").0;
    LinkFinals(g, nextId, f.node, m.letter, m.str == "", next);
  }

  lemma ShapeAfterLink(
    call: Call, g: Graph, g': Graph, paths: map<nat, string>, paths': map<nat, string>, next: nat, final: bool)
    requires Shape(call, g, paths) && Extends(call.g0, g') && next !in call.g0 && Tree(g', call.root, paths')
    requires paths'.Keys == paths.Keys + {next} && forall x :: x in paths ==> paths'[x] == paths[x]
    requires forall o :: o in g' && g'[o].final ==> (o in g && g[o].final) || (o == next && final)
    requires final ==> NodeSound(call, paths', next)
    requires next !in paths ==> next !in g
    ensures Shape(call, g', paths')
  {
    forall o | o in paths' && o in g' && g'[o].final
      ensures NodeSound(call, paths', o)
    {
      if o != next || !final {
        NodeStaysSound(call, g, paths, paths', o);
      }
    }
  }

  lemma NodeStaysSound(call: Call, g: Graph, paths: map<nat, string>, paths': map<nat, string>, o: nat)
    requires Shape(call, g, paths) && o in g && g[o].final && o in paths && o in paths' && paths'[o] == paths[o]
    ensures NodeSound(call, paths', o)
  {
    assert NodeSound(call, paths, o);
  }

  lemma OkAfterPush(
    call: Call, g: Graph, g': Graph, paths: map<nat, string>, paths': map<nat, string>,
    done: set<Frame>, todo: set<Frame>, top: Frame)
    requires Ok(call, g, paths, done, todo) && Shape(call, g', paths') && Grows(g, g')
    requires forall x :: x in paths ==> x in paths' && paths'[x] == paths[x]
    requires FrameSound(call, paths', top)
    ensures Ok(call, g', paths', done, todo + {top})
  {
    FramesStaySound(call, paths, paths', done + todo);
    AllProcessedGrows(g, g', done, done + todo, done + (todo + {top}));
  }

  // ---------- one turn of the stack loop ----------

  /** Proof bookkeeping during a turn: output paths, frames still owed, a bound for each stacked
      frame, the moves made, whether the deletion was made, and the number of pushes. */
  datatype Book = Book(
    paths: map<nat, string>, todo: set<Frame>, depths: seq<nat>, moves: set<Move>, deleted: bool, pushed: nat)

  ghost function Elems(stack: seq<Frame>): set<Frame> {
    set f | f in stack
  }

  ghost predicate DepthsOk(stack: seq<Frame>, depths: seq<nat>) {
    |depths| == |stack| && forall i :: 0 <= i < |stack| ==> |stack[i].str| + stack[i].edits <= depths[i]
  }

  /** The turn of f is under way: `base` is the weight below it, d the bound of the pushed frames. */
  ghost predicate Busy(
    call: Call, g: Graph, done: set<Frame>, f: Frame, d: nat, base: nat, stack: seq<Frame>, book: Book)
  {
    && Ok(call, g, book.paths, done, book.todo) && book.todo == Elems(stack) + {f}
    && AllPushed(g, book.todo, f, book.moves) && (book.deleted ==> Deleted(g, book.todo, f))
    && DepthsOk(stack, book.depths) && Total(book.depths, 5) == base + book.pushed * Weight(d, 5)
  }

  function Recorded(book: Book, paths: map<nat, string>, top: Frame, d: nat): Book {
    book.(paths := paths, todo := book.todo + {top}, depths := book.depths + [d], pushed := book.pushed + 1)
  }

  lemma DeletedGrows(g: Graph, g': Graph, frames: set<Frame>, frames': set<Frame>, f: Frame)
    requires Deleted(g, frames, f) && Grows(g, g') && frames <= frames'
    ensures Deleted(g', frames', f)
  {
  }

  lemma BusyAfterPush(
    call: Call, g: Graph, g': Graph, done: set<Frame>, f: Frame, d: nat, base: nat, stack: seq<Frame>, book: Book,
    paths': map<nat, string>, top: Frame)
    requires Busy(call, g, done, f, d, base, stack, book) && Shape(call, g', paths') && Grows(g, g')
    requires forall x :: x in book.paths ==> x in paths' && paths'[x] == book.paths[x]
    requires FrameSound(call, paths', top) && |top.str| + top.edits <= d
    ensures Busy(call, g', done, f, d, base, stack + [top], Recorded(book, paths', top, d))
  {
    hide Ok, Shape, FrameSound, Deleted, AllPushed, Grows, Weight, Total;
    OkAfterPush(call, g, g', book.paths, paths', done, book.todo, top);
    AllPushedGrows(g, g', book.todo, book.todo + {top}, f, book.moves);
    if book.deleted {
      DeletedGrows(g, g', book.todo, book.todo + {top}, f);
    }
    TotalPush(book.depths, d, 5);
    PushOneMore(book.pushed, Weight(d, 5));
    assert Elems(stack + [top]) + {f} == Elems(stack) + {f} + {top};
  }

  lemma BusyAfterMove(
    call: Call, g: Graph, done: set<Frame>, f: Frame, d: nat, base: nat, stack: seq<Frame>, book: Book, m: Move,
    top: Frame)
    requires Busy(call, g, done, f, d, base, stack, book) && top in book.todo && Pushed(g, {top}, f, m)
    ensures Busy(call, g, done, f, d, base, stack, book.(moves := book.moves + {m}))
  {
    hide Ok, Deleted, DepthsOk;
    assert Pushed(g, book.todo, f, m);
  }

  lemma BusyFrame(
    call: Call, g: Graph, done: set<Frame>, f: Frame, d: nat, base: nat, stack: seq<Frame>, book: Book)
    requires Busy(call, g, done, f, d, base, stack, book)
    ensures Shape(call, g, book.paths) && FrameSound(call, book.paths, f) && f.node in g
  {
  }

  /** Follows or creates the edge of a move and pushes the frame it leads to. */
  method Push(
    arena: Arena, f: Frame, m: Move, stack: seq<Frame>,
    ghost call: Call, ghost done: set<Frame>, ghost d: nat, ghost base: nat, ghost book: Book)
    returns (stack': seq<Frame>, ghost book': Book)
    requires arena.Valid() && Busy(call, arena.nodes, done, f, d, base, stack, book)
    requires Justified(f, m) && |m.str| + m.edits <= d
    modifies arena
    ensures arena.Valid() && Busy(call, arena.nodes, done, f, d, base, stack', book')
    ensures book'.moves == book.moves + {m} && book'.deleted == book.deleted && book'.pushed == book.pushed + 1
    ensures stack <= stack'
  {
    hide Busy, Shape, FrameSound, Justified, Pushed, Grows;
    BusyFrame(call, arena.nodes, done, f, d, base, stack, book);
    ghost var g, id, g', paths' := arena.nodes, 0, arena.nodes, book.paths;
    id, g', paths' := LinkShape(call, g, arena.nextId, book.paths, f, m);
    var next := LinkNode(arena, f.node, m.letter, m.str == "");
    var top := Frame(next, m.edits, m.str);
    BusyAfterPush(call, g, g', done, f, d, base, stack, book, paths', top);
    stack' := stack + [top];
    BusyAfterMove(call, g', done, f, d, base, stack', Recorded(book, paths', top, d), m, top);
    book' := Recorded(book, paths', top, d).(moves := book.moves + {m});
  }

  lemma DeletionSound(call: Call, paths: map<nat, string>, f: Frame)
    requires FrameSound(call, paths, f) && f.edits > 0 && f.str != ""
    ensures FrameSound(call, paths, Frame(f.node, f.edits - 1, f.str[1..]))
    ensures |f.str| == 1 ==> NodeSound(call, paths, f.node)
  {
    if |f.str| == 1 {
      forall u | Spells(paths[f.node], u)
        ensures Within(call.str, call.edits, u)
      {
        assert Within(f.str[1..], f.edits - 1, "");
        assert Within(f.str, f.edits, "");
        assert u + "" == u;
      }
    }
  }

  lemma GrowsFinal(g: Graph, o: nat)
    requires o in g
    ensures Grows(g, g[o := g[o].(final := true)])
  {
  }

  lemma {:induction false} FinalKeepsDelta(g: Graph, o: nat, id: nat, w: string)
    requires o in g
    ensures Delta(g[o := g[o].(final := true)], id, w) == Delta(g, id, w)
    decreases |w|
  {
    if id in g && w != "" && w[0] in g[id].edges {
      FinalKeepsDelta(g, o, g[id].edges[w[0]], w[1..]);
    }
  }

  lemma ShapeAfterFinal(call: Call, g: Graph, paths: map<nat, string>, o: nat)
    requires Shape(call, g, paths) && o in paths && NodeSound(call, paths, o)
    ensures o in g && Shape(call, g[o := g[o].(final := true)], paths)
  {
    var g' := g[o := g[o].(final := true)];
    forall x | x in paths
      ensures Delta(g', call.root, paths[x]) == Some(x)
    {
      FinalKeepsDelta(g, o, call.root, paths[x]);
    }
    assert Extends(call.g0, g');
  }

  lemma BusyAfterFinal(
    call: Call, g: Graph, g': Graph, done: set<Frame>, f: Frame, d: nat, base: nat, stack: seq<Frame>, book: Book)
    requires Busy(call, g, done, f, d, base, stack, book) && Shape(call, g', book.paths) && Grows(g, g')
    requires |f.str| == 1 && f.node in g' && g'[f.node].final
    ensures Busy(call, g', done, f, d, base, stack, book.(deleted := true))
  {
    hide Shape, FrameSound, AllPushed, DepthsOk;
    AllProcessedGrows(g, g', done, done + book.todo, done + book.todo);
    AllPushedGrows(g, g', book.todo, book.todo, f, book.moves);
  }

  /** The two deletion branches: push the rest below the same node, or make the node final. */
  method Delete(
    arena: Arena, f: Frame, stack: seq<Frame>,
    ghost call: Call, ghost done: set<Frame>, ghost d: nat, ghost base: nat, ghost book: Book)
    returns (stack': seq<Frame>, ghost book': Book)
    requires arena.Valid() && Busy(call, arena.nodes, done, f, d, base, stack, book)
    requires f.edits > 0 && f.str != "" && |f.str| + f.edits <= d + 1
    modifies arena
    ensures arena.Valid() && Busy(call, arena.nodes, done, f, d, base, stack', book')
    ensures book'.moves == book.moves && book'.deleted && book'.pushed <= book.pushed + 1
    ensures stack <= stack'
  {
    hide Busy, Shape, FrameSound, NodeSound;
    ghost var g := arena.nodes;
    BusyFrame(call, g, done, f, d, base, stack, book);
    DeletionSound(call, book.paths, f);
    FrameInPaths(call, book.paths, f);
    if |f.str| > 1 {
      var top := Frame(f.node, f.edits - 1, f.str[1..]);
      stack' := stack + [top];
      BusyAfterPush(call, g, g, done, f, d, base, stack, book, book.paths, top);
      book' := Recorded(book, book.paths, top, d).(deleted := true);
      BusyDeleted(call, g, done, f, d, base, stack', Recorded(book, book.paths, top, d));
    } else {
      arena.SetFinal(f.node, true);
      ShapeAfterFinal(call, g, book.paths, f.node);
      GrowsFinal(g, f.node);
      BusyAfterFinal(call, g, arena.nodes, done, f, d, base, stack, book);
      stack', book' := stack, book.(deleted := true);
    }
  }

  lemma BusyDeleted(
    call: Call, g: Graph, done: set<Frame>, f: Frame, d: nat, base: nat, stack: seq<Frame>, book: Book)
    requires Busy(call, g, done, f, d, base, stack, book)
    requires |f.str| > 1 && f.edits > 0 && Frame(f.node, f.edits - 1, f.str[1..]) in book.todo
    ensures Busy(call, g, done, f, d, base, stack, book.(deleted := true))
  {
  }

  lemma FrameInPaths(call: Call, paths: map<nat, string>, f: Frame)
    requires FrameSound(call, paths, f)
    ensures f.node in paths
  {
  }

  lemma TurnStarts(
    call: Call, g: Graph, paths: map<nat, string>, done: set<Frame>, f: Frame, stack: seq<Frame>, depths: seq<nat>,
    d: nat)
    returns (book: Book)
    requires Ok(call, g, paths, done, Elems(stack) + {f}) && DepthsOk(stack, depths)
    ensures book == Book(paths, Elems(stack) + {f}, depths, {}, false, 0)
    ensures Busy(call, g, done, f, d, Total(depths, 5), stack, book)
  {
    book := Book(paths, Elems(stack) + {f}, depths, {}, false, 0);
  }

  lemma TurnEnds(
    call: Call, g: Graph, done: set<Frame>, f: Frame, d: nat, base: nat, stack: seq<Frame>, book: Book)
    requires Busy(call, g, done, f, d, base, stack, book) && book.pushed <= 5
    requires book.moves == Moves(f.edits, f.str) && (f.edits > 0 && f.str != "" ==> book.deleted)
    ensures Ok(call, g, book.paths, done + {f}, Elems(stack)) && DepthsOk(stack, book.depths)
    ensures Total(book.depths, 5) < base + Weight(d + 1, 5)
  {
    hide Ok, Deleted, AllPushed, DepthsOk, Moves;
    PushesFit(d + 1, 5, book.pushed);
    OkRetire(call, g, book.paths, done, book.todo, f, stack, book.moves);
  }

  lemma OkRetire(
    call: Call, g: Graph, paths: map<nat, string>, done: set<Frame>, todo: set<Frame>, f: Frame, stack: seq<Frame>,
    moves: set<Move>)
    requires Ok(call, g, paths, done, todo) && todo == Elems(stack) + {f}
    requires AllPushed(g, todo, f, moves) && moves == Moves(f.edits, f.str)
    requires f.edits > 0 && f.str != "" ==> Deleted(g, todo, f)
    ensures Ok(call, g, paths, done + {f}, Elems(stack))
  {
    hide Shape, FrameSound, AllPushed, Moves;
    AllPushedGrows(g, g, todo, done + todo, f, moves);
    assert Processed(g, done + todo, f);
    assert done + todo == done + {f} + Elems(stack);
  }

  lemma MovesAre(edits: nat, str: string)
    ensures edits == 0 ==> Moves(edits, str) == if str != "" then {Move(str[0], edits, str[1..])} else {}
    ensures edits > 0 ==>
              Moves(edits, str) ==
              (if str != "" then {Move(str[0], edits, str[1..])} else {})
              + {Move(WILDCARD, edits - 1, str)}
              + (if str != "" then {Move(WILDCARD, edits - 1, str[1..])} else {})
              + (if |str| > 1 then {Move(str[1], edits - 1, [str[0]] + str[2..])} else {})
  {
  }

  /** One turn of the loop of `fromFuzzyString`, after the pop of f. */
  method Turn(
    arena: Arena, f: Frame, stack: seq<Frame>,
    ghost call: Call, ghost paths: map<nat, string>, ghost done: set<Frame>, ghost depths: seq<nat>, ghost d: nat)
    returns (stack': seq<Frame>, ghost paths': map<nat, string>, ghost depths': seq<nat>)
    requires arena.Valid() && Ok(call, arena.nodes, paths, done, Elems(stack) + {f}) && DepthsOk(stack, depths)
    requires |f.str| + f.edits <= d
    modifies arena
    ensures arena.Valid() && Ok(call, arena.nodes, paths', done + {f}, Elems(stack')) && DepthsOk(stack', depths')
    ensures Total(depths', 5) < Total(depths, 5) + Weight(d, 5) && stack <= stack'
  {
    hide Busy, Ok, Justified, DepthsOk, Total, Weight, Moves;
    ghost var base, below: nat := Total(depths, 5), if d == 0 then 0 else d - 1;
    ghost var book := TurnStarts(call, arena.nodes, paths, done, f, stack, depths, below);
    MovesAre(f.edits, f.str);
    MovesJustified(f);
    stack' := stack;
    if |f.str| > 0 {
      stack', book := Push(arena, f, Move(f.str[0], f.edits, f.str[1..]), stack', call, done, below, base, book);
    }
    if f.edits > 0 {
      stack', book := Push(arena, f, Move(WILDCARD, f.edits - 1, f.str), stack', call, done, below, base, book);
      if |f.str| > 0 {
        stack', book := Delete(arena, f, stack', call, done, below, base, book);
        stack', book := Push(
          arena, f, Move(WILDCARD, f.edits - 1, f.str[1..]), stack', call, done, below, base, book);
      }
      if |f.str| > 1 {
        stack', book := Push(
          arena, f, Move(f.str[1], f.edits - 1, [f.str[0]] + f.str[2..]), stack', call, done, below, base, book);
      }
    }
    paths', depths' := book.paths, book.depths;
    if d == 0 {
      LeafTurnEnds(call, arena.nodes, done, f, base, stack', book);
    } else {
      TurnEnds(call, arena.nodes, done, f, below, base, stack', book);
    }
  }

  lemma LeafTurnEnds(
    call: Call, g: Graph, done: set<Frame>, f: Frame, base: nat, stack: seq<Frame>, book: Book)
    requires Busy(call, g, done, f, 0, base, stack, book) && book.pushed == 0
    requires book.moves == Moves(f.edits, f.str) && f.edits == 0
    ensures Ok(call, g, book.paths, done + {f}, Elems(stack)) && DepthsOk(stack, book.depths)
    ensures Total(book.depths, 5) < base + Weight(0, 5)
  {
    TurnEnds(call, g, done, f, 0, base, stack, book);
  }

  lemma InitialOk(call: Call)
    requires Closed(call.g0) && call.root !in call.g0
    ensures Ok(call, call.g0[call.root := BLANK], map[call.root := ""], {}, {Frame(call.root, call.edits, call.str)})
  {
    forall u: string, v: string | Spells("", u)
      ensures u + v == v
    {
      assert u == "";
    }
  }

  lemma FinishedLanguage(call: Call, g: Graph, paths: map<nat, string>, done: set<Frame>, w: string)
    requires Ok(call, g, paths, done, {}) && Frame(call.root, call.edits, call.str) in done
    ensures QueryAccepts(g, call.root, w) <==>
            Within(call.str, call.edits, w) && (call.str != "" || w != "")
  {
    hide Within, QueryAccepts, FrameSound, NodeSound, Processed;
    assert done + {} == done;
    if QueryAccepts(g, call.root, w) {
      Sound(call, g, paths, call.root, "", w);
      assert "" + w == w;
    }
    if Within(call.str, call.edits, w) && (call.str != "" || w != "") {
      Complete(g, done, Frame(call.root, call.edits, call.str), w);
    }
  }

  lemma PopFrame(
    call: Call, g: Graph, paths: map<nat, string>, done: set<Frame>, stack: seq<Frame>, depths: seq<nat>)
    requires Ok(call, g, paths, done, Elems(stack)) && DepthsOk(stack, depths) && stack != []
    ensures |depths| == |stack|
    ensures var f, rest, d := stack[|stack| - 1], stack[..|stack| - 1], depths[|stack| - 1];
            && Ok(call, g, paths, done, Elems(rest) + {f}) && DepthsOk(rest, depths[..|stack| - 1])
            && |f.str| + f.edits <= d
            && Total(depths, 5) == Total(depths[..|stack| - 1], 5) + Weight(d, 5)
  {
    hide Ok;
    var f, rest := stack[|stack| - 1], stack[..|stack| - 1];
    assert stack == rest + [f];
    assert Elems(stack) == Elems(rest) + {f};
  }

  /** TokenSet.fromFuzzyString: the words within the edit distance of the term, and only they. The
      empty term differs in one point: its token set does not accept the empty word. */
  method FromFuzzyString(arena: Arena, str: string, editDistance: nat) returns (root: nat)
    requires arena.Valid()
    modifies arena
    ensures arena.Valid() && Extends(old(arena.nodes), arena.nodes) && root in arena.nodes
    ensures forall w :: QueryAccepts(arena.nodes, root, w) <==>
              Within(str, editDistance, w) && (str != "" || w != "")
  {
    hide Ok, DepthsOk, Total, Weight;
    ghost var g0 := arena.nodes;
    root := arena.New();
    ghost var call := Call(g0, root, str, editDistance);
    InitialOk(call);
    ghost var paths: map<nat, string>, depths: seq<nat> := map[root := ""], [|str| + editDistance];
    ghost var done: set<Frame> := {};
    var first := Frame(root, editDistance, str);
    var stack := [first];
    assert Elems(stack) == {first};
    SingleDepth(first, |str| + editDistance);
    while |stack| > 0
      invariant arena.Valid() && Ok(call, arena.nodes, paths, done, Elems(stack)) && DepthsOk(stack, depths)
      invariant first in done || first in Elems(stack)
      decreases Total(depths, 5)
    {
      PopFrame(call, arena.nodes, paths, done, stack, depths);
      var frame := stack[|stack| - 1];
      assert Elems(stack) == Elems(stack[..|stack| - 1]) + {frame};
      stack, paths, depths := Turn(
        arena, frame, stack[..|stack| - 1], call, paths, done, depths[..|stack| - 1], depths[|stack| - 1]);
      done := done + {frame};
    }
    assert Elems(stack) == {};
    forall w
      ensures QueryAccepts(arena.nodes, root, w) <==> Within(str, editDistance, w) && (str != "" || w != "")
    {
      FinishedLanguage(call, arena.nodes, paths, done, w);
    }
    FinishedGraph(call, arena.nodes, paths, done);
  }

  lemma SingleDepth(f: Frame, d: nat)
    requires |f.str| + f.edits <= d
    ensures DepthsOk([f], [d])
  {
  }

  lemma FinishedGraph(call: Call, g: Graph, paths: map<nat, string>, done: set<Frame>)
    requires Ok(call, g, paths, done, {})
    ensures Extends(call.g0, g) && call.root in g
  {
  }
}

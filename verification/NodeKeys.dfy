/** TokenSet.toString of docs/ui/lunr.js: the string under which the builder looks up an
    equivalent node. It strings labels and decimal ids together without separators. */
module NodeKeys {
  import opened Automata
  import opened Decimal

  lemma {:induction false} LeastLabelExists(labels: set<char>)
    requires labels != {}
    ensures exists c :: c in labels && forall d :: d in labels ==> c <= d
  {
    var x :| x in labels;
    var rest := labels - {x};
    if rest == {} {
      assert labels == {x};
    } else {
      LeastLabelExists(rest);
      var c :| c in rest && forall d :: d in rest ==> c <= d;
      assert forall d :: d in labels ==> d == x || d in rest;
      var least := if x <= c then x else c;
      assert least in labels && forall d :: d in labels ==> least <= d;
    }
  }

  function LeastLabel(labels: set<char>): (c: char)
    requires labels != {}
    ensures c in labels && forall d :: d in labels ==> c <= d
  {
    LeastLabelExists(labels);
    var c :| c in labels && forall d :: d in labels ==> c <= d;
    c
  }

  function Chunks(edges: map<char, nat>): string
    decreases |edges|
  {
    if edges == map[] then "" else
      var c := LeastLabel(edges.Keys);
      [c] + Digits(edges[c]) + Chunks(edges - {c})
  }

  function Key(node: Node): string {
    (if node.final then "1" else "0") + Chunks(node.edges)
  }

  method ToString(node: Node) returns (str: string)
    ensures str == Key(node)
  {
    str := if node.final then "1" else "0";
    var rest := node.edges;
    while rest != map[]
      invariant str + Chunks(rest) == Key(node)
      decreases |rest|
    {
      var least := LeastLabel(rest.Keys);
      ghost var tail := Chunks(rest - {least});
      assert str + ([least] + Digits(rest[least]) + tail) == str + [least] + Digits(rest[least]) + tail;
      str := str + [least] + Digits(rest[least]);
      rest := rest - {least};
    }
    assert str + "" == str;
  }

  lemma ChunksFirst(edges: map<char, nat>, l: char)
    requires l in edges && forall d :: d in edges ==> l <= d
    ensures Chunks(edges) == [l] + Digits(edges[l]) + Chunks(edges - {l})
  {
  }

  lemma NoChunks()
    ensures Chunks(map[]) == ""
  {
  }

  /** The greatest label and its id come last. */
  lemma {:induction false} ChunksMore(edges: map<char, nat>, c: char, n: nat)
    requires forall d :: d in edges ==> d < c
    ensures Chunks(edges[c := n]) == Chunks(edges) + [c] + Digits(n)
    decreases |edges|
  {
    hide Digits, Chunks;
    var more := edges[c := n];
    var noEdges: map<char, nat> := map[];
    NoChunks();
    if edges == map[] {
      assert more - {c} == noEdges;
      ChunksFirst(more, c);
    } else {
      var l := LeastLabel(edges.Keys);
      assert more - {l} == (edges - {l})[c := n];
      ChunksFirst(edges, l);
      ChunksFirst(more, l);
      ChunksMore(edges - {l}, c, n);
      assert |edges - {l}| < |edges|;
    }
  }

  lemma KeyReads(final: bool, edges: map<char, nat>, c: char, n: nat)
    requires forall d :: d in edges ==> d < c
    ensures Key(Node(final, map[])) == if final then "1" else "0"
    ensures Key(Node(final, edges[c := n])) == Key(Node(final, edges)) + [c] + Digits(n)
  {
    hide Digits;
    ChunksMore(edges, c, n);
  }

  /** No label that is a digit comes after another label. */
  predicate NoLateDigit(labels: set<char>) {
    forall d, x :: d in labels && x in labels && IsDigit(d) ==> d <= x
  }

  ghost predicate KeysDistinguish(labels: set<char>) {
    forall a: Node, b: Node ::
      a.edges.Keys <= labels && b.edges.Keys <= labels && Key(a) == Key(b) ==> a == b
  }

  lemma ChunksUnfold(a: map<char, nat>) returns (c: char, tail: string)
    requires a != map[]
    ensures c == LeastLabel(a.Keys) && tail == Digits(a[c]) + Chunks(a - {c})
    ensures Chunks(a) != "" && Chunks(a)[0] == c && Chunks(a)[1..] == tail
  {
    c := LeastLabel(a.Keys);
    tail := Digits(a[c]) + Chunks(a - {c});
    assert Chunks(a) == [c] + tail;
  }

  lemma FirstChunk(a: map<char, nat>, b: map<char, nat>, labels: set<char>) returns (c: char)
    requires a.Keys <= labels && b.Keys <= labels && NoLateDigit(labels)
    requires a != map[] && b != map[] && Chunks(a) == Chunks(b)
    ensures c in a && c in b && a[c] == b[c] && Chunks(a - {c}) == Chunks(b - {c})
  {
    var tailA, tailB;
    c, tailA := ChunksUnfold(a);
    var d;
    d, tailB := ChunksUnfold(b);
    ChunksStart(a - {c}, c, labels);
    ChunksStart(b - {c}, c, labels);
    SplitNumeral(a[c], b[c], Chunks(a - {c}), Chunks(b - {c}));
  }

  lemma PutBack(a: map<char, nat>, b: map<char, nat>, c: char)
    requires c in a && c in b && a[c] == b[c] && a - {c} == b - {c}
    ensures a == b
  {
    assert a == (a - {c})[c := a[c]];
    assert b == (b - {c})[c := b[c]];
  }

  lemma {:induction false} ChunksInjective(a: map<char, nat>, b: map<char, nat>, labels: set<char>)
    requires a.Keys <= labels && b.Keys <= labels && NoLateDigit(labels)
    requires Chunks(a) == Chunks(b)
    ensures a == b
    decreases |a|
  {
    if a == map[] {
      if b != map[] { var _, _ := ChunksUnfold(b); }
    } else if b == map[] {
      var _, _ := ChunksUnfold(a);
    } else {
      var c := FirstChunk(a, b, labels);
      ChunksInjective(a - {c}, b - {c}, labels);
      PutBack(a, b, c);
    }
  }

  lemma ChunksStart(rest: map<char, nat>, c: char, labels: set<char>)
    requires rest.Keys <= labels && c in labels && NoLateDigit(labels)
    requires forall d :: d in rest ==> c < d
    ensures Chunks(rest) != "" ==> !IsDigit(Chunks(rest)[0])
  {
    if rest != map[] {
      assert Chunks(rest)[0] == LeastLabel(rest.Keys);
    }
  }

  /** Every edge leads to an id between lo and hi. */
  predicate LeadsWithin(edges: map<char, nat>, lo: nat, hi: nat) {
    forall c :: c in edges ==> lo <= edges[c] <= hi
  }

  lemma SameWidth(n: nat, lo: nat, hi: nat)
    requires lo <= n <= hi && |Digits(lo)| == |Digits(hi)|
    ensures |Digits(n)| == |Digits(lo)|
  {
    WiderIsGreater(lo, n);
    WiderIsGreater(n, hi);
  }

  /** Ids that all have the same number of digits can be read back whatever the labels are. */
  lemma {:induction false} ChunksOfOneWidth(a: map<char, nat>, b: map<char, nat>, lo: nat, hi: nat)
    requires LeadsWithin(a, lo, hi) && LeadsWithin(b, lo, hi) && |Digits(lo)| == |Digits(hi)|
    requires Chunks(a) == Chunks(b)
    ensures a == b
    decreases |a|
  {
    if a == map[] {
      if b != map[] { var _, _ := ChunksUnfold(b); }
    } else if b == map[] {
      var _, _ := ChunksUnfold(a);
    } else {
      var c := FirstChunkOfOneWidth(a, b, lo, hi);
      ChunksOfOneWidth(a - {c}, b - {c}, lo, hi);
      PutBack(a, b, c);
    }
  }

  lemma FirstChunkOfOneWidth(a: map<char, nat>, b: map<char, nat>, lo: nat, hi: nat) returns (c: char)
    requires LeadsWithin(a, lo, hi) && LeadsWithin(b, lo, hi) && |Digits(lo)| == |Digits(hi)|
    requires a != map[] && b != map[] && Chunks(a) == Chunks(b)
    ensures c in a && c in b && a[c] == b[c] && Chunks(a - {c}) == Chunks(b - {c})
  {
    hide Digits;
    var tailA, tailB;
    c, tailA := ChunksUnfold(a);
    var d;
    d, tailB := ChunksUnfold(b);
    SameWidth(a[c], lo, hi);
    SameWidth(b[c], lo, hi);
    var n := |Digits(lo)|;
    assert tailA[..n] == Digits(a[c]) && tailA[n..] == Chunks(a - {c});
    assert tailB[..n] == Digits(b[c]) && tailB[n..] == Chunks(b - {c});
    ValueOfDigits(a[c]);
    ValueOfDigits(b[c]);
  }

  /** The keys of nodes over these labels, with edges to ids between lo and hi, tell the nodes apart. */
  predicate KeysTell(labels: set<char>, lo: nat, hi: nat) {
    NoLateDigit(labels) || |Digits(lo)| == |Digits(hi)|
  }

  lemma KeysTellApart(a: Node, b: Node, labels: set<char>, lo: nat, hi: nat)
    requires KeysTell(labels, lo, hi) && Key(a) == Key(b)
    requires a.edges.Keys <= labels && b.edges.Keys <= labels
    requires LeadsWithin(a.edges, lo, hi) && LeadsWithin(b.edges, lo, hi)
    ensures a == b
  {
    assert Key(a)[0] == Key(b)[0] && Key(a)[1..] == Chunks(a.edges) && Key(b)[1..] == Chunks(b.edges);
    if NoLateDigit(labels) {
      ChunksInjective(a.edges, b.edges, labels);
    } else {
      ChunksOfOneWidth(a.edges, b.edges, lo, hi);
    }
  }

  /** A digit y after a label x: {x -> "1y1"} and {x -> 1, y -> 1} share a key. */
  lemma LateDigitCollides(x: char, y: char) returns (a: Node, b: Node)
    requires x < y && IsDigit(y)
    ensures a.edges.Keys == {x} && b.edges.Keys == {x, y}
    ensures a != b && Key(a) == Key(b)
  {
    var s := ['1', y, '1'];
    DigitsOfValue(s);
    var one, two := map[x := Value(s)], map[x := 1, y := 1];
    a, b := Node(false, one), Node(false, two);
    assert x in one && y in two && y !in one;
    assert one.Keys == {x} && two.Keys == {x, y};
    var noEdges: map<char, nat> := map[];
    assert one - {x} == noEdges && two - {x} - {y} == noEdges && (two - {x}).Keys == {y};
    assert LeastLabel({x}) == x && LeastLabel({y}) == y && LeastLabel({x, y}) == x;
    assert Digits(1) == "1";
    assert Chunks(one) == [x] + s + "" == [x] + s;
    assert Chunks(two - {x}) == [y] + "1" + "";
    assert Chunks(two) == [x] + "1" + ([y] + "1" + "") == [x] + s;
  }

  /** Over an alphabet, keys tell all nodes apart exactly when no digit comes after another label. */
  lemma KeysDistinguishIff(labels: set<char>)
    ensures KeysDistinguish(labels) <==> NoLateDigit(labels)
  {
    if NoLateDigit(labels) {
      forall a: Node, b: Node | a.edges.Keys <= labels && b.edges.Keys <= labels && Key(a) == Key(b)
        ensures a == b
      {
        assert Key(a)[0] == Key(b)[0] && Key(a)[1..] == Chunks(a.edges) && Key(b)[1..] == Chunks(b.edges);
        ChunksInjective(a.edges, b.edges, labels);
      }
    } else {
      var y, x :| y in labels && x in labels && IsDigit(y) && x < y;
      var a, b := LateDigitCollides(x, y);
      assert a.edges.Keys <= labels && b.edges.Keys <= labels;
    }
  }
}

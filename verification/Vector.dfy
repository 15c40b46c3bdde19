/** lunr.Vector of docs/ui/lunr.js: a sparse vector as a flat array of index, value, index, value. */
module Vector {

  function Size(e: seq<real>): nat {
    |e| / 2
  }

  function Key(e: seq<real>, i: nat): real
    requires i < Size(e)
  {
    e[2 * i]
  }

  function Val(e: seq<real>, i: nat): real
    requires i < Size(e)
  {
    e[2 * i + 1]
  }

  /** Whole pairs, the indexes strictly increasing. */
  predicate Ordered(e: seq<real>) {
    |e| % 2 == 0 && forall i, j | 0 <= i < j < Size(e) :: Key(e, i) < Key(e, j)
  }

  /** The vector as a map from index to value. */
  function Contents(e: seq<real>): (m: map<real, real>) {
    if Size(e) == 0 then map[] else Contents(e[..|e| - 2])[e[|e| - 2] := e[|e| - 1]]
  }

  /** The place of an index: everything before it is smaller, everything from it on is not. */
  predicate PlaceOf(e: seq<real>, index: real, p: nat)
    requires Ordered(e)
  {
    && p <= Size(e)
    && (forall i | 0 <= i < p :: Key(e, i) < index)
    && (forall i | p <= i < Size(e) :: index <= Key(e, i))
  }

  lemma PlaceIsUnique(e: seq<real>, index: real, p: nat, q: nat)
    requires Ordered(e) && PlaceOf(e, index, p) && PlaceOf(e, index, q)
    ensures p == q
  {
    var least := if p < q then p else q;
    if least < Size(e) {
      var k := Key(e, least);
    }
  }

  predicate HasKey(e: seq<real>, k: real) {
    exists i: nat :: i < Size(e) && Key(e, i) == k
  }

  /** m has exactly the pairs of e. */
  predicate Represents(e: seq<real>, m: map<real, real>) {
    && (forall i | 0 <= i < Size(e) :: Key(e, i) in m && m[Key(e, i)] == Val(e, i))
    && (forall k | k in m :: HasKey(e, k))
  }

  lemma {:induction false} ContentsRepresents(e: seq<real>)
    requires Ordered(e)
    ensures Represents(e, Contents(e))
  {
    if Size(e) > 0 {
      hide Represents, Contents;
      var n := Size(e) - 1;
      var front := e[..|e| - 2];
      assert forall i | 0 <= i < n :: Key(front, i) == Key(e, i);
      ContentsRepresents(front);
      OnePairMore(e, Contents(front));
      assert Contents(e) == Contents(front)[Key(e, n) := Val(e, n)] by { ContentsUnfolds(e); }
    } else {
      NoPairs(e);
    }
  }

  lemma NoPairs(e: seq<real>)
    requires Size(e) == 0
    ensures Represents(e, Contents(e))
  {
  }

  lemma ContentsUnfolds(e: seq<real>)
    requires Size(e) > 0 && |e| % 2 == 0
    ensures Contents(e) == Contents(e[..|e| - 2])[Key(e, Size(e) - 1) := Val(e, Size(e) - 1)]
  {
  }

  lemma OnePairMore(e: seq<real>, m: map<real, real>)
    requires Ordered(e) && Size(e) > 0 && Represents(e[..|e| - 2], m)
    ensures Represents(e, m[Key(e, Size(e) - 1) := Val(e, Size(e) - 1)])
  {
    var n := Size(e) - 1;
    var front := e[..|e| - 2];
    forall i | 0 <= i < n ensures Key(front, i) == Key(e, i) && Val(front, i) == Val(e, i) && Key(e, i) < Key(e, n) {
    }
    forall k | HasKey(front, k) ensures HasKey(e, k) {
      var i: nat :| i < n && Key(front, i) == k;
      KeyIsKey(e, i);
    }
    KeyIsKey(e, n);
  }

  lemma RepresentsIsContents(e: seq<real>, m: map<real, real>)
    requires Ordered(e) && Represents(e, m)
    ensures m == Contents(e)
  {
    ContentsRepresents(e);
    var c := Contents(e);
    forall k ensures k in m <==> k in c {
    }
    forall k | k in m ensures m[k] == c[k] {
      assert HasKey(e, k);
    }
  }

  lemma PlaceByNeighbours(e: seq<real>, index: real, p: nat)
    requires Ordered(e) && p <= Size(e)
    requires p > 0 ==> Key(e, p - 1) < index
    requires p < Size(e) ==> index <= Key(e, p)
    ensures PlaceOf(e, index, p)
  {
  }

  function Updated(e: seq<real>, p: nat, v: real): seq<real>
    requires p < Size(e)
  {
    e[2 * p + 1 := v]
  }

  function Spliced(e: seq<real>, p: nat, index: real, v: real): seq<real>
    requires p <= Size(e)
  {
    e[..2 * p] + [index, v] + e[2 * p..]
  }

  lemma UpdatedContents(e: seq<real>, p: nat, v: real)
    requires Ordered(e) && p < Size(e)
    ensures Ordered(Updated(e, p, v))
    ensures Contents(Updated(e, p, v)) == Contents(e)[Key(e, p) := v]
  {
    hide Contents;
    var s := Updated(e, p, v);
    ContentsRepresents(e);
    assert forall i | 0 <= i < Size(e) :: Key(s, i) == Key(e, i) && (i != p ==> Val(s, i) == Val(e, i));
    assert forall i | 0 <= i < Size(e) && i != p :: Key(e, i) != Key(e, p);
    assert forall k | HasKey(e, k) :: HasKey(s, k);
    RepresentsIsContents(s, Contents(e)[Key(e, p) := v]);
  }

  lemma SplicedPairs(e: seq<real>, p: nat, index: real, v: real)
    requires |e| % 2 == 0 && p <= Size(e)
    ensures var s := Spliced(e, p, index, v);
            && Size(s) == Size(e) + 1 && |s| % 2 == 0
            && Key(s, p) == index && Val(s, p) == v
            && (forall i | 0 <= i < p :: Key(s, i) == Key(e, i) && Val(s, i) == Val(e, i))
            && (forall i | p < i < Size(s) :: Key(s, i) == Key(e, i - 1) && Val(s, i) == Val(e, i - 1))
  {
  }

  lemma SplicedOrdered(e: seq<real>, p: nat, index: real, v: real)
    requires Ordered(e) && PlaceOf(e, index, p) && (p < Size(e) ==> Key(e, p) != index)
    ensures Ordered(Spliced(e, p, index, v)) && !HasKey(e, index)
  {
    hide Spliced;
    SplicedPairs(e, p, index, v);
    assert forall i | p <= i < Size(e) :: index < Key(e, i) by {
      assert forall i | p < i < Size(e) :: Key(e, p) < Key(e, i);
    }
  }

  lemma SplicedHasKey(e: seq<real>, p: nat, index: real, v: real, k: real)
    requires |e| % 2 == 0 && p <= Size(e) && HasKey(e, k)
    ensures HasKey(Spliced(e, p, index, v), k)
  {
    hide Spliced;
    SplicedPairs(e, p, index, v);
    var i: nat :| i < Size(e) && Key(e, i) == k;
    assert k == Key(Spliced(e, p, index, v), if i < p then i else i + 1);
  }

  lemma SplicedContents(e: seq<real>, p: nat, index: real, v: real)
    requires Ordered(e) && PlaceOf(e, index, p) && (p < Size(e) ==> Key(e, p) != index)
    ensures Ordered(Spliced(e, p, index, v))
    ensures index !in Contents(e) && Contents(Spliced(e, p, index, v)) == Contents(e)[index := v]
  {
    hide Spliced, Contents, HasKey;
    var s, c := Spliced(e, p, index, v), Contents(e);
    ContentsRepresents(e);
    SplicedPairs(e, p, index, v);
    SplicedOrdered(e, p, index, v);
    forall k | HasKey(e, k) ensures HasKey(s, k) {
      SplicedHasKey(e, p, index, v, k);
    }
    assert HasKey(s, index) by { KeyIsKey(s, p); }
    RepresentsIsContents(s, c[index := v]);
  }

  lemma KeyIsKey(e: seq<real>, p: nat)
    requires p < Size(e)
    ensures HasKey(e, Key(e, p))
  {
  }

  function SumOfSquares(e: seq<real>, n: nat): real
    requires n <= Size(e)
  {
    if n == 0 then 0.0 else SumOfSquares(e, n - 1) + Val(e, n - 1) * Val(e, n - 1)
  }

  function At(m: map<real, real>, k: real): real {
    if k in m then m[k] else 0.0
  }

  /** The sum, over the pairs of e from i on, of the products with the values of m at the same indexes. */
  function DotFrom(e: seq<real>, i: nat, m: map<real, real>): real
    requires i <= Size(e)
    decreases Size(e) - i
  {
    if i == Size(e) then 0.0 else Val(e, i) * At(m, Key(e, i)) + DotFrom(e, i + 1, m)
  }

  /** The pairs of e from j on, as a map. */
  ghost predicate RestOf(e: seq<real>, j: nat, m: map<real, real>)
    requires Ordered(e)
  {
    && (forall i | j <= i < Size(e) :: Key(e, i) in m && m[Key(e, i)] == Val(e, i))
    && (forall k | k in m :: exists i: nat :: j <= i < Size(e) && Key(e, i) == k)
  }

  /** The loop over both vectors as a function. */
  function Merged(a: seq<real>, b: seq<real>, i: nat, j: nat): real
    requires i <= Size(a) && j <= Size(b)
    decreases Size(a) - i + Size(b) - j
  {
    if i == Size(a) || j == Size(b) then 0.0
    else if Key(a, i) < Key(b, j) then Merged(a, b, i + 1, j)
    else if Key(a, i) > Key(b, j) then Merged(a, b, i, j + 1)
    else Val(a, i) * Val(b, j) + Merged(a, b, i + 1, j + 1)
  }

  lemma {:induction false} MergedIsSymmetric(a: seq<real>, b: seq<real>, i: nat, j: nat)
    requires i <= Size(a) && j <= Size(b)
    ensures Merged(a, b, i, j) == Merged(b, a, j, i)
    decreases Size(a) - i + Size(b) - j
  {
    if i < Size(a) && j < Size(b) {
      if Key(a, i) < Key(b, j) {
        MergedIsSymmetric(a, b, i + 1, j);
      } else if Key(a, i) > Key(b, j) {
        MergedIsSymmetric(a, b, i, j + 1);
      } else {
        MergedIsSymmetric(a, b, i + 1, j + 1);
      }
    }
  }

  /** Indexes that no remaining pair of e has do not matter. */
  lemma {:induction false} DotFromAgree(e: seq<real>, i: nat, m: map<real, real>, m': map<real, real>)
    requires i <= Size(e) && forall k | i <= k < Size(e) :: At(m, Key(e, k)) == At(m', Key(e, k))
    ensures DotFrom(e, i, m) == DotFrom(e, i, m')
    decreases Size(e) - i
  {
    if i < Size(e) {
      DotFromAgree(e, i + 1, m, m');
    }
  }

  lemma {:induction false} DotFromNothing(e: seq<real>, i: nat)
    requires i <= Size(e)
    ensures DotFrom(e, i, map[]) == 0.0
    decreases Size(e) - i
  {
    if i < Size(e) {
      DotFromNothing(e, i + 1);
    }
  }

  /** The loop computes the sum over the shared indexes. */
  lemma {:induction false} MergedIsDot(a: seq<real>, b: seq<real>, i: nat, j: nat, m: map<real, real>)
    requires Ordered(a) && Ordered(b) && i <= Size(a) && j <= Size(b) && RestOf(b, j, m)
    ensures Merged(a, b, i, j) == DotFrom(a, i, m)
    decreases Size(a) - i + Size(b) - j
  {
    hide Merged, DotFrom, Ordered, At, RestOf;
    MergedUnfolds(a, b, i, j);
    if i == Size(a) {
      assert DotFrom(a, i, m) == 0.0 by { DotFromUnfolds(a, i, m); }
    } else if j == Size(b) {
      NothingShared(a, i, b, j, m);
    } else {
      var k := Key(b, j);
      DotFromUnfolds(a, i, m);
      if Key(a, i) < k {
        SmallerIsNotShared(b, j, m, Key(a, i));
        assert Val(a, i) * 0.0 == 0.0;
        MergedIsDot(a, b, i + 1, j, m);
      } else {
        RestWithoutFirst(b, j, m);
        var next := if Key(a, i) > k then i else i + 1;
        NextIsGreater(a, i);
        MergedIsDot(a, b, next, j + 1, m - {k});
        DropKey(a, next, m, k);
      }
    }
  }

  lemma MergedUnfolds(a: seq<real>, b: seq<real>, i: nat, j: nat)
    requires i <= Size(a) && j <= Size(b)
    ensures i == Size(a) || j == Size(b) ==> Merged(a, b, i, j) == 0.0
    ensures i < Size(a) && j < Size(b) && Key(a, i) < Key(b, j) ==> Merged(a, b, i, j) == Merged(a, b, i + 1, j)
    ensures i < Size(a) && j < Size(b) && Key(a, i) > Key(b, j) ==> Merged(a, b, i, j) == Merged(a, b, i, j + 1)
    ensures i < Size(a) && j < Size(b) && Key(a, i) == Key(b, j) ==>
              Merged(a, b, i, j) == Val(a, i) * Val(b, j) + Merged(a, b, i + 1, j + 1)
  {
  }

  lemma DotFromUnfolds(e: seq<real>, i: nat, m: map<real, real>)
    requires i <= Size(e)
    ensures DotFrom(e, i, m) == if i == Size(e) then 0.0 else Val(e, i) * At(m, Key(e, i)) + DotFrom(e, i + 1, m)
  {
  }

  lemma NextIsGreater(e: seq<real>, i: nat)
    requires Ordered(e) && i < Size(e)
    ensures i + 1 < Size(e) ==> Key(e, i) < Key(e, i + 1)
  {
  }

  lemma NothingShared(a: seq<real>, i: nat, b: seq<real>, j: nat, m: map<real, real>)
    requires Ordered(b) && i <= Size(a) && j == Size(b) && RestOf(b, j, m)
    ensures DotFrom(a, i, m) == 0.0
  {
    DotFromAgree(a, i, m, map[]);
    DotFromNothing(a, i);
  }

  lemma SmallerIsNotShared(e: seq<real>, j: nat, m: map<real, real>, k: real)
    requires Ordered(e) && j < Size(e) && RestOf(e, j, m) && k < Key(e, j)
    ensures At(m, k) == 0.0
  {
    assert forall i | j < i < Size(e) :: Key(e, j) < Key(e, i);
  }

  lemma DropKey(e: seq<real>, i: nat, m: map<real, real>, k: real)
    requires Ordered(e) && i <= Size(e) && (i < Size(e) ==> k < Key(e, i))
    ensures DotFrom(e, i, m) == DotFrom(e, i, m - {k})
  {
    assert forall x | i < x < Size(e) :: Key(e, i) < Key(e, x);
    DotFromAgree(e, i, m, m - {k});
  }

  lemma RestWithoutFirst(e: seq<real>, j: nat, m: map<real, real>)
    requires Ordered(e) && j < Size(e) && RestOf(e, j, m)
    ensures RestOf(e, j + 1, m - {Key(e, j)}) && At(m, Key(e, j)) == Val(e, j)
  {
    assert forall i | j < i < Size(e) :: Key(e, j) < Key(e, i);
  }

  /** The dot product of two vectors: the sum over the indexes they share. */
  function DotProduct(a: seq<real>, b: seq<real>): real {
    DotFrom(a, 0, Contents(b))
  }

  lemma DotProductIsMerged(a: seq<real>, b: seq<real>)
    requires Ordered(a) && Ordered(b)
    ensures DotProduct(a, b) == Merged(a, b, 0, 0)
  {
    ContentsRepresents(b);
    assert RestOf(b, 0, Contents(b)) by {
      forall k | k in Contents(b) ensures exists i: nat :: 0 <= i < Size(b) && Key(b, i) == k {
        assert HasKey(b, k);
      }
    }
    MergedIsDot(a, b, 0, 0, Contents(b));
  }

  /** The product with a unit vector is the value at its index. */
  lemma DotWithUnit(e: seq<real>, k: real)
    requires Ordered(e)
    ensures DotProduct(e, [k, 1.0]) == At(Contents(e), k)
  {
    var unit := [k, 1.0];
    assert unit[..0] == [] && Contents([]) == map[];
    assert Contents(unit) == map[k := 1.0];
    ContentsRepresents(e);
    UnitFrom(e, 0, k);
    if k in Contents(e) {
      assert HasKey(e, k);
    }
  }

  lemma {:induction false} UnitFrom(e: seq<real>, i: nat, k: real)
    requires Ordered(e) && i <= Size(e)
    ensures (forall j | i <= j < Size(e) :: Key(e, j) != k) ==> DotFrom(e, i, map[k := 1.0]) == 0.0
    ensures forall j | i <= j < Size(e) && Key(e, j) == k :: DotFrom(e, i, map[k := 1.0]) == Val(e, j)
    decreases Size(e) - i
  {
    if i < Size(e) {
      UnitFrom(e, i + 1, k);
      if Key(e, i) == k {
        assert forall j | i < j < Size(e) :: Key(e, i) < Key(e, j);
      }
    }
  }

  /** What the magnitude is the root of is the product of the vector with itself. */
  lemma SquaresAreDot(e: seq<real>)
    requires Ordered(e)
    ensures SumOfSquares(e, Size(e)) == DotProduct(e, e)
  {
    ContentsRepresents(e);
    SquaresFrom(e, 0);
  }

  lemma RepresentsAt(e: seq<real>, m: map<real, real>, i: nat)
    requires Represents(e, m) && i < Size(e)
    ensures At(m, Key(e, i)) == Val(e, i)
  {
  }

  lemma {:induction false} SquaresFrom(e: seq<real>, i: nat)
    requires Ordered(e) && i <= Size(e) && Represents(e, Contents(e))
    ensures SumOfSquares(e, Size(e)) == SumOfSquares(e, i) + DotFrom(e, i, Contents(e))
    decreases Size(e) - i
  {
    hide Represents, Contents;
    if i < Size(e) {
      assert At(Contents(e), Key(e, i)) == Val(e, i) by { RepresentsAt(e, Contents(e), i); }
      SquaresFrom(e, i + 1);
    }
  }

  /** The dot product does not depend on which vector is asked. */
  lemma DotProductIsSymmetric(a: seq<real>, b: seq<real>)
    requires Ordered(a) && Ordered(b)
    ensures DotProduct(a, b) == DotProduct(b, a)
  {
    DotProductIsMerged(a, b);
    DotProductIsMerged(b, a);
    MergedIsSymmetric(a, b, 0, 0);
  }

  class Vector {
    /** The cached magnitude, zero when there is none. */
    var cachedMagnitude: real
    var elements: seq<real>
    const sqrt: real -> real

    ghost predicate Valid()
      reads this
    {
      && Ordered(elements)
      && (cachedMagnitude == 0.0 || cachedMagnitude == sqrt(SumOfSquares(elements, Size(elements))))
    }

    constructor (elements: seq<real>, sqrt: real -> real)
      requires Ordered(elements)
      ensures Valid() && this.elements == elements && this.sqrt == sqrt
    {
      this.cachedMagnitude, this.elements, this.sqrt := 0.0, elements, sqrt;
    }

    /** The place of an index in the flat array, by bisection. */
    method PositionForIndex(index: real) returns (position: nat)
      requires Ordered(elements)
      ensures position % 2 == 0 && PlaceOf(elements, index, position / 2)
    {
      hide PlaceOf;
      if |elements| == 0 {
        PlaceByNeighbours(elements, index, 0);
        return 0;
      }
      var start, end := 0, |elements| / 2;
      var sliceLength := end - start;
      var pivotPoint := sliceLength / 2;
      var pivotIndex := elements[pivotPoint * 2];
      while sliceLength > 1
        invariant 0 <= start < end <= Size(elements) && sliceLength == end - start
        invariant pivotPoint == start + sliceLength / 2 && pivotIndex == Key(elements, pivotPoint)
        invariant start == 0 || Key(elements, start) < index
        invariant end == Size(elements) || Key(elements, end) > index
        decreases sliceLength
      {
        if pivotIndex < index {
          start := pivotPoint;
        }
        if pivotIndex > index {
          end := pivotPoint;
        }
        if pivotIndex == index {
          break;
        }
        sliceLength := end - start;
        pivotPoint := start + sliceLength / 2;
        pivotIndex := elements[pivotPoint * 2];
      }
      assert pivotPoint > 0 ==> Key(elements, pivotPoint - 1) < Key(elements, pivotPoint);
      PlaceByNeighbours(elements, index, if pivotIndex < index then pivotPoint + 1 else pivotPoint);
      if pivotIndex == index {
        return pivotPoint * 2;
      }
      if pivotIndex > index {
        return pivotPoint * 2;
      }
      return (pivotPoint + 1) * 2;
    }

    /** Inserts the value, or combines it with the one already there. */
    method Upsert(index: real, val: real, fn: (real, real) -> real)
      requires Valid()
      modifies this
      ensures Valid() && cachedMagnitude == 0.0
      ensures Contents(elements) == old(Contents(elements))[index :=
                if index in old(Contents(elements)) then fn(old(Contents(elements))[index], val) else val]
    {
      cachedMagnitude := 0.0;
      var position := PositionForIndex(index);
      var p := position / 2;
      if position < |elements| && elements[position] == index {
        ContentsRepresents(elements);
        assert Key(elements, p) == index;
        UpdatedContents(elements, p, fn(elements[position + 1], val));
        elements := elements[position + 1 := fn(elements[position + 1], val)];
      } else {
        SplicedContents(elements, p, index, val);
        elements := elements[..position] + [index, val] + elements[position..];
      }
    }

    /** Inserts the value; fails when the index is already there. */
    method Insert(index: real, val: real) returns (ok: bool)
      requires Valid()
      modifies this
      ensures Valid() && cachedMagnitude == 0.0
      ensures ok <==> index !in old(Contents(elements))
      ensures Contents(elements) == if ok then old(Contents(elements))[index := val] else old(Contents(elements))
    {
      cachedMagnitude := 0.0;
      var position := PositionForIndex(index);
      ContentsRepresents(elements);
      if position < |elements| && elements[position] == index {
        assert Key(elements, position / 2) == index;
        return false;
      }
      SplicedContents(elements, position / 2, index, val);
      elements := elements[..position] + [index, val] + elements[position..];
      return true;
    }

    /** The magnitude, from the cache when it holds one. */
    method Magnitude() returns (magnitude: real)
      requires Valid()
      modifies `cachedMagnitude
      ensures Valid() && magnitude == sqrt(SumOfSquares(elements, Size(elements)))
    {
      if cachedMagnitude != 0.0 {
        return cachedMagnitude;
      }
      var sumOfSquares := 0.0;
      var i := 1;
      while i < |elements|
        invariant i % 2 == 1 && 1 <= i <= |elements| + 1
        invariant sumOfSquares == SumOfSquares(elements, i / 2)
      {
        var val := elements[i];
        assert val == Val(elements, i / 2);
        sumOfSquares := sumOfSquares + val * val;
        i := i + 2;
      }
      cachedMagnitude := sqrt(sumOfSquares);
      return cachedMagnitude;
    }

    method Dot(otherVector: Vector) returns (dotProduct: real)
      requires Valid() && otherVector.Valid()
      ensures dotProduct == DotProduct(elements, otherVector.elements)
    {
      dotProduct := 0.0;
      var a, b := elements, otherVector.elements;
      DotProductIsMerged(a, b);
      var i, j := 0, 0;
      while i < |a| && j < |b|
        invariant i % 2 == 0 && j % 2 == 0 && 0 <= i <= |a| && 0 <= j <= |b|
        invariant dotProduct + Merged(a, b, i / 2, j / 2) == Merged(a, b, 0, 0)
        decreases |a| - i + |b| - j
      {
        var aVal, bVal := a[i], b[j];
        assert aVal == Key(a, i / 2) && bVal == Key(b, j / 2);
        if aVal < bVal {
          i := i + 2;
        } else if aVal > bVal {
          j := j + 2;
        } else {
          dotProduct := dotProduct + a[i + 1] * b[j + 1];
          i := i + 2;
          j := j + 2;
        }
      }
    }
  }
}

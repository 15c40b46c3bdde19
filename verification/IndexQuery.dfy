/** Index.query of docs/ui/lunr.js: which documents a query returns. */
module IndexQuery {
  import opened Automata
  import opened Wrappers
  import opened LunrSet
  import Builder
  import Fuzzy
  import Glob
  import Intersect
  import NodeKeys
  import ToArray

  datatype Presence = OPTIONAL | REQUIRED | PROHIBITED

  /** A query clause with the terms that the search pipeline made of its term. */
  datatype Clause = Clause(terms: seq<string>, editDistance: Option<nat>, fields: seq<string>, presence: Presence)

  /** The inverted index maps a term and a field to the documents; fieldRefs are the keys of fieldVectors,
      `listed` stands for the words that the token set accepts. */
  datatype Index = Index(
    fields: seq<string>, inverted: map<string, map<string, set<string>>>, tokenSet: nat, listed: string -> bool,
    fieldRefs: set<string>)

  /** Every posting has exactly the fields of the index, and their names have no joiner. */
  ghost predicate FieldsOk(index: Index) {
    && (forall f :: f in index.fields ==> JOINER !in f)
    && (forall w, f :: w in index.inverted ==> (f in index.inverted[w] <==> f in index.fields))
  }

  /** The field references are those of fields of the index, those of all postings among them. */
  ghost predicate DocumentsOk(index: Index) {
    && FieldsOk(index)
    && (forall w, f, d :: w in index.inverted && f in index.fields && d in index.inverted[w][f] ==>
          FieldRef(d, f) in index.fieldRefs)
    && (forall r :: r in index.fieldRefs ==> exists d, f :: f in index.fields && r == FieldRef(d, f))
  }

  /** The token set is without loops. It may list other terms than the inverted index has. */
  ghost predicate IndexOk(g: Graph, index: Index) {
    && index.tokenSet in g
    && (forall w :: Accepts(g, index.tokenSet, w) <==> index.listed(w))
    && (exists depth: nat :: Bounded(g, index.tokenSet, depth))
    && DocumentsOk(index)
  }

  /**
   * createTokenSet and build: the token set over the sorted terms of the inverted index. It lists those terms
   * and no others when the node strings tell its nodes apart; `Misbuilt` says when they may not.
   */
  method BuildIndex(
    arena: Arena, fields: seq<string>, inverted: map<string, map<string, set<string>>>, fieldRefs: set<string>,
    terms: seq<string>)
    returns (index: Index)
    requires arena.Valid() && Builder.Sorted(terms) && Builder.WordSet(terms) == inverted.Keys
    requires DocumentsOk(Index(fields, inverted, 0, _ => false, fieldRefs))
    modifies arena
    ensures arena.Valid() && IndexOk(arena.nodes, index)
    ensures index == Index(fields, inverted, old(arena.nextId), index.listed, fieldRefs)
    ensures arena.nodes == Builder.Built(old(arena.nodes), old(arena.nextId), terms).nodes
    ensures NodeKeys.KeysTell(Builder.Alphabet(terms), old(arena.nextId), old(arena.nextId) + 1 + Builder.Letters(terms)) ==>
              forall w :: index.listed(w) <==> w in inverted
  {
    hide *;
    var ok, root := Builder.FromArray(arena, terms);
    var g := arena.nodes;
    index := Index(fields, inverted, root, w => Accepts(g, root, w), fieldRefs);
    TokenSetServes(g, index, Index(fields, inverted, 0, _ => false, fieldRefs));
    if Builder.IsMinimalAutomaton(g, root, inverted.Keys) {
      ListsItsWords(g, root, inverted.Keys);
    }
  }

  lemma ListsItsWords(g: Graph, root: nat, words: set<string>)
    requires Builder.IsMinimalAutomaton(g, root, words)
    ensures forall w :: Accepts(g, root, w) <==> w in words
  {
  }

  lemma TokenSetServes(g: Graph, index: Index, base: Index)
    requires index.tokenSet in g && exists depth: nat :: Bounded(g, index.tokenSet, depth)
    requires forall w :: Accepts(g, index.tokenSet, w) <==> index.listed(w)
    requires DocumentsOk(base) && index == base.(tokenSet := index.tokenSet, listed := index.listed)
    ensures IndexOk(g, index)
  {
  }

  // ---------- what a query means ----------

  /** The clause term t stands for the index term w. */
  ghost predicate TermMatches(t: string, editDistance: Option<nat>, w: string) {
    && w != ""
    && match editDistance
       case None => Glob.Matches(t, w)
       case Some(k) => Fuzzy.Within(t, k, w)
  }

  ghost predicate Expands(index: Index, c: Clause, t: string, w: string) {
    index.listed(w) && TermMatches(t, c.editDistance, w)
  }

  ghost predicate InPosting(index: Index, w: string, f: string, d: string) {
    w in index.inverted && f in index.inverted[w] && d in index.inverted[w][f]
  }

  /** Some term of the clause expands to an index term that d has in the field f. */
  ghost predicate Hit(index: Index, c: Clause, f: string, d: string) {
    f in c.fields && exists t, w :: t in c.terms && Expands(index, c, t, w) && InPosting(index, w, f, d)
  }

  ghost predicate ClauseMatches(index: Index, c: Clause, d: string) {
    exists f :: Hit(index, c, f, d)
  }

  ghost predicate TermExpands(index: Index, c: Clause, t: string) {
    exists w :: Expands(index, c, t, w)
  }

  ghost predicate EveryTermExpands(index: Index, c: Clause) {
    forall t :: t in c.terms ==> TermExpands(index, c, t)
  }

  ghost predicate Requirement(index: Index, c: Clause, d: string) {
    EveryTermExpands(index, c) && ClauseMatches(index, c, d)
  }

  ghost predicate AllProhibited(clauses: seq<Clause>) {
    forall c :: c in clauses ==> c.presence == PROHIBITED
  }

  ghost predicate Indexed(index: Index, d: string) {
    exists f :: f in index.fields && FieldRef(d, f) in index.fieldRefs
  }

  /** Every posting has its number under this name, beside the fields. */
  const TERM_INDEX := "_index"

  /** The field loop ends normally: to exclude a document, the number of a posting is as good as an empty field. */
  predicate AllKnown(index: Index, c: Clause) {
    forall f :: f in c.fields ==> f in index.fields || (c.presence == PROHIBITED && f == TERM_INDEX)
  }

  predicate SomeKnown(index: Index, c: Clause) {
    exists f :: f in c.fields && f in index.fields
  }

  ghost predicate Selected(index: Index, clauses: seq<Clause>, d: string) {
    && (forall c :: c in clauses && c.presence == REQUIRED && SomeKnown(index, c) ==> Requirement(index, c, d))
    && (forall c :: c in clauses && c.presence == PROHIBITED ==> !ClauseMatches(index, c, d))
    && if AllProhibited(clauses) then Indexed(index, d)
       else exists c :: c in clauses && c.presence != PROHIBITED && ClauseMatches(index, c, d)
  }

  /** The term stands for a word that the token set lists and the inverted index does not have. */
  ghost predicate Stray(index: Index, c: Clause, t: string) {
    exists w :: Expands(index, c, t, w) && w !in index.inverted
  }

  /** Looking up the term reads a missing posting, or the missing entry of a field the index does not have. */
  ghost predicate Fails(index: Index, c: Clause, t: string) {
    TermExpands(index, c, t) && (!AllKnown(index, c) || Stray(index, c, t))
  }

  /** The loop over the terms reaches one that fails: a required term that expands to nothing ends it. */
  ghost predicate Trips(index: Index, c: Clause) {
    exists i :: 0 <= i < |c.terms| && Fails(index, c, c.terms[i]) && Reaches(index, c, i)
  }

  ghost predicate Reaches(index: Index, c: Clause, i: nat)
    requires i <= |c.terms|
  {
    c.presence == REQUIRED ==> forall j :: 0 <= j < i ==> TermExpands(index, c, c.terms[j])
  }

  /** A required clause without terms reads an undefined set unless an earlier one set up the field. */
  ghost predicate ReadsUndefined(clauses: seq<Clause>, j: nat) {
    && j < |clauses| && clauses[j].presence == REQUIRED && clauses[j].terms == []
    && exists f :: f in clauses[j].fields
                   && forall i :: 0 <= i < j && clauses[i].presence == REQUIRED ==> f !in clauses[i].fields
  }

  ghost predicate Throws(index: Index, clauses: seq<Clause>, j: nat) {
    j < |clauses| && (Trips(index, clauses[j]) || ReadsUndefined(clauses, j))
  }

  /** A required word that the pipeline drops, like a stop word: unless earlier required clauses name all its
      fields, the query ends in a TypeError whatever comes before and after. */
  lemma RequiredStopWordThrows(
    index: Index, before: seq<Clause>, fields: seq<string>, editDistance: Option<nat>, after: seq<Clause>)
    requires exists f :: f in fields && forall c :: c in before && c.presence == REQUIRED ==> f !in c.fields
    ensures exists j :: Throws(index, before + [Clause([], editDistance, fields, REQUIRED)] + after, j)
  {
    var clauses := before + [Clause([], editDistance, fields, REQUIRED)] + after;
    assert clauses[|before|].fields == fields && forall i :: 0 <= i < |before| ==> clauses[i] == before[i];
    assert ReadsUndefined(clauses, |before|);
    assert Throws(index, clauses, |before|);
  }

  // ---------- term expansion ----------

  lemma IndexOkExtended(g: Graph, g': Graph, index: Index)
    requires IndexOk(g, index) && Closed(g) && Extends(g, g')
    ensures IndexOk(g', index)
  {
    forall w
      ensures Accepts(g', index.tokenSet, w) <==> index.listed(w)
    {
      ExtendedAccepts(g, g', index.tokenSet, w);
    }
    var depth: nat :| Bounded(g, index.tokenSet, depth);
    BoundedExtended(g, g', index.tokenSet, depth);
  }

  /** this.tokenSet.intersect(TokenSet.fromClause(clause)).toArray() */
  method Expand(arena: Arena, index: Index, t: string, editDistance: Option<nat>) returns (words: seq<string>)
    requires arena.Valid() && IndexOk(arena.nodes, index)
    modifies arena
    ensures arena.Valid() && IndexOk(arena.nodes, index)
    ensures forall w :: w in words <==> index.listed(w) && TermMatches(t, editDistance, w)
    ensures forall i, j :: 0 <= i < j < |words| ==> words[i] != words[j]
  {
    ghost var g0 := arena.nodes;
    var query;
    match editDistance {
      case Some(k) => query := Fuzzy.FromFuzzyString(arena, t, k);
      case None => query := Glob.FromString(arena, t);
    }
    ghost var g1 := arena.nodes;
    IndexOkExtended(g0, g1, index);
    var output := Intersect.Intersect(arena, index.tokenSet, query);
    IndexOkExtended(g1, arena.nodes, index);
    words := ToArray.ToArray(arena.nodes, output);
  }

  // ---------- the maps that query fills ----------

  datatype State = State(
    required: map<string, Set>, prohibited: map<string, Set>, matching: set<string>, cache: set<string>,
    clauseMatches: Set)

  type Pairs = set<(string, string)>

  ghost predicate InField(m: map<string, Set>, f: string, d: string) {
    f in m && m[f].Contains(d)
  }

  /** A cached term and field has all its documents among the matching field references. */
  ghost predicate CacheOk(index: Index, st: State) {
    forall w, f, d :: f in index.fields && w + [JOINER] + f in st.cache && InPosting(index, w, f, d) ==>
      FieldRef(d, f) in st.matching
  }

  /** The body of the field loop for an expanded term. */
  function FieldStep(c: Clause, w: string, f: string, docs: set<string>, st: State): State {
    if c.presence == PROHIBITED then
      var current := if f in st.prohibited then st.prohibited[f] else Empty;
      st.(prohibited := st.prohibited[f := current.Union(Elements(docs, |docs|))])
    else
      var st1 :=
        if c.presence == REQUIRED then
          st.(clauseMatches := st.clauseMatches.Union(Elements(docs, |docs|)),
              required := if f in st.required then st.required else st.required[f := Complete])
        else st;
      var termField := w + [JOINER] + f;
      if termField in st1.cache then st1
      else st1.(matching := st1.matching + set d | d in docs :: FieldRef(d, f), cache := st1.cache + {termField})
  }

  ghost predicate Related(index: Index, matching: set<string>, before: set<string>, hits: Pairs) {
    && (forall r :: r in before ==> r in matching)
    && (forall f, d :: (f, d) in hits ==> FieldRef(d, f) in matching)
    && (forall r :: r in matching ==> r in before || exists f, d :: (f, d) in hits && r == FieldRef(d, f))
  }

  /** Within one clause: the maps are those of its start, changed by the field and document pairs hit so far. */
  ghost predicate ClauseInv(index: Index, c: Clause, st0: State, st: State, hits: Pairs) {
    && CacheOk(index, st)
    && (c.presence == PROHIBITED ==>
          && st.required == st0.required && st.matching == st0.matching
          && forall f, d :: InField(st.prohibited, f, d) <==> InField(st0.prohibited, f, d) || (f, d) in hits)
    && (c.presence != PROHIBITED ==>
          && st.prohibited == st0.prohibited && Related(index, st.matching, st0.matching, hits))
    && (c.presence == OPTIONAL ==> st.required == st0.required)
    && (c.presence == REQUIRED ==>
          && (forall d :: st.clauseMatches.Contains(d) <==> exists f :: (f, d) in hits)
          && (forall f :: f in st0.required ==> f in st.required && st.required[f] == st0.required[f])
          && (forall f :: f in st.required && f !in st0.required ==> f in c.fields && st.required[f] == Complete))
  }

  lemma CacheAfterStep(index: Index, c: Clause, w: string, f: string, docs: set<string>, st: State)
    requires CacheOk(index, st) && f in index.fields && (forall f :: f in index.fields ==> JOINER !in f)
    requires forall d :: d in docs <==> InPosting(index, w, f, d)
    ensures CacheOk(index, FieldStep(c, w, f, docs, st))
  {
    var st' := FieldStep(c, w, f, docs, st);
    forall w', f', d | f' in index.fields && w' + [JOINER] + f' in st'.cache && InPosting(index, w', f', d)
      ensures FieldRef(d, f') in st'.matching
    {
      if w' + [JOINER] + f' !in st.cache {
        LastPartUnique(w', f', w, f);
      }
    }
  }

  lemma MatchingAfterStep(index: Index, c: Clause, w: string, f: string, docs: set<string>, st: State, before: set<string>, hits: Pairs)
    requires Related(index, st.matching, before, hits) && c.presence != PROHIBITED && f in index.fields
    requires CacheOk(index, st) && forall d :: d in docs <==> InPosting(index, w, f, d)
    ensures Related(index, FieldStep(c, w, f, docs, st).matching, before, hits + set d | d in docs :: (f, d))
  {
    var st', hits' := FieldStep(c, w, f, docs, st), hits + set d | d in docs :: (f, d);
    forall r | r in st'.matching
      ensures r in before || exists f, d :: (f, d) in hits' && r == FieldRef(d, f)
    {
      if r in st.matching {
        if r !in before {
          var f', d' :| (f', d') in hits && r == FieldRef(d', f');
          assert (f', d') in hits';
        }
      } else {
        var d' :| d' in docs && r == FieldRef(d', f);
        assert (f, d') in hits';
      }
    }
  }

  lemma RequiredAfterStep(c: Clause, w: string, f: string, docs: set<string>, st: State, hits: Pairs)
    requires c.presence == REQUIRED && forall d :: st.clauseMatches.Contains(d) <==> exists f :: (f, d) in hits
    ensures var hits' := hits + set d | d in docs :: (f, d);
            forall d :: FieldStep(c, w, f, docs, st).clauseMatches.Contains(d) <==> exists f :: (f, d) in hits'
  {
    var hits' := hits + set d | d in docs :: (f, d);
    forall d
      ensures (exists f :: (f, d) in hits') <==> (exists f :: (f, d) in hits) || d in docs
    {
      if d in docs {
        assert (f, d) in hits';
      }
      if g :| (g, d) in hits {
        assert (g, d) in hits';
      }
    }
  }

  lemma StepKeeps(
    index: Index, c: Clause, w: string, f: string, docs: set<string>, st0: State, st: State, hits: Pairs)
    requires ClauseInv(index, c, st0, st, hits) && f in c.fields && (f in index.fields || c.presence == PROHIBITED)
    requires forall f :: f in index.fields ==> JOINER !in f
    requires forall d :: d in docs <==> InPosting(index, w, f, d)
    ensures ClauseInv(index, c, st0, FieldStep(c, w, f, docs, st), hits + set d | d in docs :: (f, d))
  {
    hide CacheOk, Related, InPosting;
    if c.presence == PROHIBITED {
      SameCache(index, st, FieldStep(c, w, f, docs, st));
    } else {
      CacheAfterStep(index, c, w, f, docs, st);
      MatchingAfterStep(index, c, w, f, docs, st, st0.matching, hits);
    }
    if c.presence == REQUIRED {
      RequiredAfterStep(c, w, f, docs, st, hits);
    }
  }

  /** The field names and documents that the index terms among `words` hit for the clause. */
  ghost predicate HitBy(index: Index, c: Clause, words: seq<string>, f: string, d: string) {
    f in c.fields && exists w :: w in words && InPosting(index, w, f, d)
  }

  /** The loop over the fields of the clause for one expanded term; false is the TypeError. */
  method FieldLoop(index: Index, c: Clause, w: string, st: State, ghost st0: State, ghost hits: Pairs)
    returns (ok: bool, st': State, ghost hits': Pairs)
    requires ClauseInv(index, c, st0, st, hits) && FieldsOk(index) && w in index.inverted
    ensures ok <==> AllKnown(index, c)
    ensures ok ==> ClauseInv(index, c, st0, st', hits')
    ensures ok ==> forall f, d ::
              (f, d) in hits' <==> (f, d) in hits || (f in c.fields && InPosting(index, w, f, d))
    ensures ok && c.presence == REQUIRED ==> forall f :: f in c.fields ==> f in st'.required
  {
    hide ClauseInv;
    st', hits' := st, hits;
    for k := 0 to |c.fields|
      invariant ClauseInv(index, c, st0, st', hits')
      invariant forall f :: f in c.fields[..k] ==> f in index.fields || (c.presence == PROHIBITED && f == TERM_INDEX)
      invariant forall f, d :: (f, d) in hits' <==> (f, d) in hits || (f in c.fields[..k] && InPosting(index, w, f, d))
      invariant c.presence == REQUIRED ==> forall f :: f in c.fields[..k] ==> f in st'.required
    {
      var f := c.fields[k];
      if f !in index.inverted[w] && !(c.presence == PROHIBITED && f == TERM_INDEX) {
        assert f in c.fields && f !in index.fields;
        return false, st', hits';
      }
      var docs := if f in index.inverted[w] then index.inverted[w][f] else {};
      StepKeeps(index, c, w, f, docs, st0, st', hits');
      st', hits' := FieldStep(c, w, f, docs, st'), hits' + set d | d in docs :: (f, d);
      assert c.fields[..k + 1] == c.fields[..k] + [f];
    }
    assert c.fields[..|c.fields|] == c.fields;
    ok := true;
  }

  /** The loop over the expanded terms of one clause term; false is the TypeError. */
  method ExpansionLoop(index: Index, c: Clause, words: seq<string>, st: State, ghost st0: State, ghost hits: Pairs)
    returns (ok: bool, st': State, ghost hits': Pairs)
    requires ClauseInv(index, c, st0, st, hits) && FieldsOk(index)
    ensures ok <==> words == [] || (AllKnown(index, c) && forall w :: w in words ==> w in index.inverted)
    ensures ok ==> ClauseInv(index, c, st0, st', hits')
    ensures ok ==> forall f, d :: (f, d) in hits' <==> (f, d) in hits || HitBy(index, c, words, f, d)
    ensures ok && c.presence == REQUIRED && words != [] ==> forall f :: f in c.fields ==> f in st'.required
    ensures ok && words == [] ==> st' == st
  {
    hide ClauseInv, InPosting, FieldsOk, AllKnown;
    st', hits' := st, hits;
    for j := 0 to |words|
      invariant ClauseInv(index, c, st0, st', hits') && (j > 0 ==> AllKnown(index, c)) && (j == 0 ==> st' == st)
      invariant forall w :: w in words[..j] ==> w in index.inverted
      invariant forall f, d :: (f, d) in hits' <==> (f, d) in hits || HitBy(index, c, words[..j], f, d)
      invariant c.presence == REQUIRED && j > 0 ==> forall f :: f in c.fields ==> f in st'.required
    {
      if words[j] !in index.inverted {
        assert words[j] in words;
        return false, st', hits';
      }
      ok, st', hits' := FieldLoop(index, c, words[j], st', st0, hits');
      if !ok {
        return;
      }
      assert words[..j + 1] == words[..j] + [words[j]];
    }
    assert words[..|words|] == words;
    ok := true;
  }

  /** The terms before position m have been expanded, each into something. */
  ghost predicate HitsOf(index: Index, c: Clause, m: nat, hits: Pairs)
    requires m <= |c.terms|
  {
    forall f, d :: (f, d) in hits <==>
      f in c.fields && exists i, w :: 0 <= i < m && Expands(index, c, c.terms[i], w) && InPosting(index, w, f, d)
  }

  lemma HitsOfNext(index: Index, c: Clause, m: nat, words: seq<string>, hits: Pairs, hits': Pairs)
    requires m < |c.terms| && HitsOf(index, c, m, hits)
    requires forall w :: w in words <==> Expands(index, c, c.terms[m], w)
    requires forall f, d :: (f, d) in hits' <==> (f, d) in hits || HitBy(index, c, words, f, d)
    ensures HitsOf(index, c, m + 1, hits')
  {
    hide Expands, InPosting;
    forall f, d
      ensures (f, d) in hits' <==>
              f in c.fields && exists i, w :: 0 <= i < m + 1 && Expands(index, c, c.terms[i], w) && InPosting(index, w, f, d)
    {
      if HitBy(index, c, words, f, d) {
        var w :| w in words && InPosting(index, w, f, d);
        assert Expands(index, c, c.terms[m], w);
      }
    }
  }

  lemma HitsOfAll(index: Index, c: Clause, hits: Pairs)
    requires HitsOf(index, c, |c.terms|, hits)
    ensures forall f, d :: (f, d) in hits <==> Hit(index, c, f, d)
  {
    hide Expands, InPosting;
    forall f, d
      ensures (f, d) in hits <==> Hit(index, c, f, d)
    {
      if Hit(index, c, f, d) {
        var t, w :| t in c.terms && Expands(index, c, t, w) && InPosting(index, w, f, d);
        var i :| 0 <= i < |c.terms| && c.terms[i] == t;
      }
    }
  }

  lemma HitsOfSome(index: Index, c: Clause, m: nat, hits: Pairs)
    requires m <= |c.terms| && HitsOf(index, c, m, hits)
    ensures forall f, d :: (f, d) in hits ==> Hit(index, c, f, d)
  {
  }

  /** The required sets of the clause's fields become the shared empty set. */
  function Emptied(required: map<string, Set>, fields: seq<string>): (r: map<string, Set>)
    ensures forall f :: f in r <==> f in required || f in fields
    ensures forall f :: f in r ==> r[f] == if f in fields then Empty else required[f]
  {
    if fields == [] then required else
      var r := Emptied(required, fields[1..]);
      assert forall f :: f in fields <==> f == fields[0] || f in fields[1..];
      r[fields[0] := Empty]
  }

  /** What the loop over the terms leaves. */
  ghost predicate TermsDone(index: Index, c: Clause, st0: State, st: State, broken: bool, hits: Pairs) {
    && (broken <==> c.presence == REQUIRED && !EveryTermExpands(index, c))
    && ClauseInv(index, c, st0, if broken then st.(required := st0.required) else st, hits)
    && (!broken ==> forall f, d :: (f, d) in hits <==> Hit(index, c, f, d))
    && (broken ==> forall f, d :: (f, d) in hits ==> Hit(index, c, f, d))
    && (broken ==> forall f :: f in c.fields ==> f in st.required && st.required[f] == Empty)
    && (broken ==> forall f :: f in st.required && f !in c.fields ==>
          f in st0.required && st.required[f] == st0.required[f])
    && (broken ==> forall f :: f in st0.required ==> f in st.required)
    && (!broken && c.presence == REQUIRED && c.terms != [] ==> forall f :: f in c.fields ==> f in st.required)
    && (c.terms == [] ==> st == st0)
    && CacheOk(index, st)
  }

  /**
   * The loop over the terms of a clause; false is the TypeError, `broken` says that a required term
   * expands to nothing.
   */
  method TermLoop(arena: Arena, index: Index, c: Clause, st0: State)
    returns (ok: bool, st: State, broken: bool, ghost hits: Pairs)
    requires arena.Valid() && IndexOk(arena.nodes, index)
    requires CacheOk(index, st0) && st0.clauseMatches == Empty
    modifies arena
    ensures arena.Valid() && IndexOk(arena.nodes, index)
    ensures ok <==> !Trips(index, c)
    ensures ok ==> TermsDone(index, c, st0, st, broken, hits)
  {
    hide CacheOk, IndexOk, FieldsOk, Hit, HitsOf, TermMatches, Related, TermExpands, ClauseInv, AllKnown;
    FieldsOfIndex(arena.nodes, index);
    ok, st, broken, hits := true, st0, false, {};
    assert ClauseInv(index, c, st0, st, {}) by { ClauseStarts(index, c, st0); }
    assert HitsOf(index, c, 0, {}) by { NoHitsYet(index, c); }
    for m := 0 to |c.terms|
      invariant arena.Valid() && IndexOk(arena.nodes, index)
      invariant ClauseInv(index, c, st0, st, hits) && HitsOf(index, c, m, hits)
      invariant Reaches(index, c, m) && forall i :: 0 <= i < m ==> !Fails(index, c, c.terms[i])
      invariant c.presence == REQUIRED && m > 0 ==> forall f :: f in c.fields ==> f in st.required
      invariant CacheOk(index, st) && (m == 0 ==> st == st0)
    {
      var expandedTerms := Expand(arena, index, c.terms[m], c.editDistance);
      assert forall w :: w in expandedTerms <==> Expands(index, c, c.terms[m], w);
      ExpandsToSome(index, c, c.terms[m], expandedTerms);
      assert Fails(index, c, c.terms[m]) <==>
             !(expandedTerms == [] || (AllKnown(index, c) && forall w :: w in expandedTerms ==> w in index.inverted));
      if |expandedTerms| == 0 && c.presence == REQUIRED {
        HitsOfSome(index, c, m, hits);
        Retained(index, c, st0, st, hits);
        SameCache(index, st, st.(required := Emptied(st.required, c.fields)));
        st := st.(required := Emptied(st.required, c.fields));
        return true, st, true, hits;
      }
      ghost var before := hits;
      ok, st, hits := ExpansionLoop(index, c, expandedTerms, st, st0, hits);
      if !ok {
        assert c.terms[m] in c.terms;
        return;
      }
      CacheOfClause(index, c, st0, st, hits);
      HitsOfNext(index, c, m, expandedTerms, before, hits);
    }
    HitsOfAll(index, c, hits);
  }

  lemma FieldsOfIndex(g: Graph, index: Index)
    requires IndexOk(g, index)
    ensures FieldsOk(index)
  {
  }

  lemma ExpandsToSome(index: Index, c: Clause, t: string, words: seq<string>)
    requires forall w :: w in words <==> Expands(index, c, t, w)
    ensures TermExpands(index, c, t) <==> words != []
  {
    if words != [] {
      assert words[0] in words;
    }
  }

  lemma ClauseStarts(index: Index, c: Clause, st0: State)
    requires CacheOk(index, st0) && st0.clauseMatches == Empty
    ensures ClauseInv(index, c, st0, st0, {})
  {
  }

  lemma NoHitsYet(index: Index, c: Clause)
    ensures HitsOf(index, c, 0, {})
  {
  }

  lemma CacheOfClause(index: Index, c: Clause, st0: State, st: State, hits: Pairs)
    requires ClauseInv(index, c, st0, st, hits)
    ensures CacheOk(index, st)
  {
  }

  lemma Retained(index: Index, c: Clause, st0: State, st: State, hits: Pairs)
    requires ClauseInv(index, c, st0, st, hits) && c.presence == REQUIRED
    ensures ClauseInv(index, c, st0, st.(required := st0.required), hits)
    ensures CacheOk(index, st)
    ensures forall f :: f in st0.required ==> f in st.required
    ensures forall f :: f in st.required && f !in c.fields ==> f in st0.required && st.required[f] == st0.required[f]
  {
  }

  // ---------- whole clauses ----------

  ghost predicate CountsBefore(clauses: seq<Clause>, n: nat, p: Presence, j: int) {
    0 <= j < n && j < |clauses| && clauses[j].presence == p
  }

  /** The required sets after the first n clauses. */
  ghost predicate RequiredInv(index: Index, clauses: seq<Clause>, n: nat, required: map<string, Set>) {
    && (forall f :: f in required <==> exists j :: CountsBefore(clauses, n, REQUIRED, j) && f in clauses[j].fields)
    && (forall f, d :: f in required ==>
          (required[f].Contains(d) <==>
           forall j :: CountsBefore(clauses, n, REQUIRED, j) && f in clauses[j].fields ==>
             Requirement(index, clauses[j], d)))
  }

  ghost predicate ProhibitedInv(index: Index, clauses: seq<Clause>, n: nat, prohibited: map<string, Set>) {
    forall f, d :: InField(prohibited, f, d) <==>
      exists j :: CountsBefore(clauses, n, PROHIBITED, j) && Hit(index, clauses[j], f, d)
  }

  /** Exact for the clauses whose terms all expand; a required clause that breaks off early may
      leave fewer references, but then no document is returned anyway. */
  ghost predicate MatchingInv(index: Index, clauses: seq<Clause>, n: nat, matching: set<string>) {
    && (forall r :: r in matching ==> exists j, f, d ::
          0 <= j < n && j < |clauses| && clauses[j].presence != PROHIBITED && Hit(index, clauses[j], f, d)
          && r == FieldRef(d, f))
    && (forall j, f, d ::
          (0 <= j < n && j < |clauses| && clauses[j].presence != PROHIBITED && Hit(index, clauses[j], f, d)
           && (clauses[j].presence == REQUIRED ==> EveryTermExpands(index, clauses[j]))) ==>
          FieldRef(d, f) in matching)
  }

  ghost predicate QueryInv(index: Index, clauses: seq<Clause>, n: nat, st: State) {
    && CacheOk(index, st)
    && RequiredInv(index, clauses, n, st.required)
    && ProhibitedInv(index, clauses, n, st.prohibited)
    && MatchingInv(index, clauses, n, st.matching)
  }

  lemma RequiredUntouched(index: Index, clauses: seq<Clause>, n: nat, required: map<string, Set>)
    requires n < |clauses| && clauses[n].presence != REQUIRED && RequiredInv(index, clauses, n, required)
    ensures RequiredInv(index, clauses, n + 1, required)
  {
    assert forall j :: CountsBefore(clauses, n + 1, REQUIRED, j) <==> CountsBefore(clauses, n, REQUIRED, j);
  }

  /** The field's required documents, narrowed by one clause. */
  ghost predicate RequiredBy(index: Index, c: Clause, required: map<string, Set>, required': map<string, Set>, f: string) {
    && f in required'
    && forall d :: required'[f].Contains(d) <==>
                   (f in required ==> required[f].Contains(d)) && Requirement(index, c, d)
  }

  lemma RequiredNextField(
    index: Index, clauses: seq<Clause>, n: nat, required: map<string, Set>, required': map<string, Set>,
    f: string, d: string)
    requires n < |clauses| && clauses[n].presence == REQUIRED && RequiredInv(index, clauses, n, required)
    requires f in required' && (f in required || f in clauses[n].fields)
    requires f in required && f !in clauses[n].fields ==> required'[f] == required[f]
    requires f in clauses[n].fields ==> RequiredBy(index, clauses[n], required, required', f)
    ensures required'[f].Contains(d) <==>
            forall j :: CountsBefore(clauses, n + 1, REQUIRED, j) && f in clauses[j].fields ==>
              Requirement(index, clauses[j], d)
  {
    hide Requirement;
    assert CountsBefore(clauses, n + 1, REQUIRED, n);
    assert forall j :: CountsBefore(clauses, n + 1, REQUIRED, j) <==> CountsBefore(clauses, n, REQUIRED, j) || j == n;
    if f !in required {
      forall j | CountsBefore(clauses, n, REQUIRED, j) ensures f !in clauses[j].fields {
      }
    }
  }

  lemma RequiredNext(
    index: Index, clauses: seq<Clause>, n: nat, required: map<string, Set>, required': map<string, Set>)
    requires n < |clauses| && clauses[n].presence == REQUIRED && RequiredInv(index, clauses, n, required)
    requires forall f :: f in required' <==> f in required || f in clauses[n].fields
    requires forall f :: f in required && f !in clauses[n].fields ==> required'[f] == required[f]
    requires forall f :: f in clauses[n].fields ==> RequiredBy(index, clauses[n], required, required', f)
    ensures RequiredInv(index, clauses, n + 1, required')
  {
    hide Requirement, RequiredBy;
    assert forall j :: CountsBefore(clauses, n + 1, REQUIRED, j) <==> CountsBefore(clauses, n, REQUIRED, j) || j == n;
    forall f, d | f in required'
      ensures required'[f].Contains(d) <==>
              forall j :: CountsBefore(clauses, n + 1, REQUIRED, j) && f in clauses[j].fields ==>
                Requirement(index, clauses[j], d)
    {
      RequiredNextField(index, clauses, n, required, required', f, d);
    }
  }

  lemma ProhibitedUntouched(index: Index, clauses: seq<Clause>, n: nat, prohibited: map<string, Set>)
    requires n < |clauses| && clauses[n].presence != PROHIBITED && ProhibitedInv(index, clauses, n, prohibited)
    ensures ProhibitedInv(index, clauses, n + 1, prohibited)
  {
    assert forall j :: CountsBefore(clauses, n + 1, PROHIBITED, j) <==> CountsBefore(clauses, n, PROHIBITED, j);
  }

  lemma ProhibitedNext(
    index: Index, clauses: seq<Clause>, n: nat, prohibited: map<string, Set>, prohibited': map<string, Set>)
    requires n < |clauses| && clauses[n].presence == PROHIBITED && ProhibitedInv(index, clauses, n, prohibited)
    requires forall f, d :: InField(prohibited', f, d) <==>
      InField(prohibited, f, d) || Hit(index, clauses[n], f, d)
    ensures ProhibitedInv(index, clauses, n + 1, prohibited')
  {
    assert CountsBefore(clauses, n + 1, PROHIBITED, n);
    assert forall j :: CountsBefore(clauses, n + 1, PROHIBITED, j) <==> CountsBefore(clauses, n, PROHIBITED, j) || j == n;
  }

  lemma MatchingNext(
    index: Index, clauses: seq<Clause>, n: nat, matching: set<string>, matching': set<string>, hits: Pairs, broken: bool)
    requires n < |clauses| && MatchingInv(index, clauses, n, matching)
    requires clauses[n].presence != PROHIBITED && Related(index, matching', matching, hits)
    requires broken <==> clauses[n].presence == REQUIRED && !EveryTermExpands(index, clauses[n])
    requires forall f, d :: (f, d) in hits ==> Hit(index, clauses[n], f, d)
    requires !broken ==> forall f, d :: Hit(index, clauses[n], f, d) ==> (f, d) in hits
    ensures MatchingInv(index, clauses, n + 1, matching')
  {
    hide Hit, EveryTermExpands;
    forall r | r in matching'
      ensures exists j, f, d ::
          0 <= j < n + 1 && j < |clauses| && clauses[j].presence != PROHIBITED && Hit(index, clauses[j], f, d)
          && r == FieldRef(d, f)
    {
      if r !in matching {
        var f, d :| (f, d) in hits && r == FieldRef(d, f);
        assert Hit(index, clauses[n], f, d);
      }
    }
  }

  lemma MatchingUntouched(index: Index, clauses: seq<Clause>, n: nat, matching: set<string>)
    requires n < |clauses| && MatchingInv(index, clauses, n, matching) && clauses[n].presence == PROHIBITED
    ensures MatchingInv(index, clauses, n + 1, matching)
  {
    hide Hit, EveryTermExpands;
  }

  ghost predicate NarrowedAt(named: bool, before: Set, clauseMatches: Set, after: Set) {
    && (forall d :: after.Contains(d) <==> before.Contains(d) && (named ==> clauseMatches.Contains(d)))
    && (!named ==> after == before)
  }

  ghost predicate NarrowedBy(
    fields: seq<string>, required: map<string, Set>, clauseMatches: Set, required': map<string, Set>)
  {
    && required'.Keys == required.Keys
    && forall f :: f in required ==> NarrowedAt(f in fields, required[f], clauseMatches, required'[f])
  }

  lemma NotNarrowed(required: map<string, Set>, clauseMatches: Set)
    ensures NarrowedBy([], required, clauseMatches, required)
  {
  }

  lemma NarrowedAgain(named: bool, before: Set, clauseMatches: Set, after: Set)
    requires NarrowedAt(named, before, clauseMatches, after)
    ensures NarrowedAt(true, before, clauseMatches, after.Intersect(clauseMatches))
  {
  }

  lemma NarrowedFurther(
    fields: seq<string>, required: map<string, Set>, clauseMatches: Set, required': map<string, Set>, field: string)
    requires NarrowedBy(fields, required, clauseMatches, required') && field in required'
    ensures NarrowedBy(fields + [field], required, clauseMatches,
                       required'[field := required'[field].Intersect(clauseMatches)])
  {
    hide NarrowedAt;
    NarrowedAgain(field in fields, required[field], clauseMatches, required'[field]);
    assert forall f :: f in fields + [field] <==> f in fields || f == field;
  }

  /** The loop that narrows the required sets after a required clause; false is the TypeError. */
  method NarrowLoop(c: Clause, required: map<string, Set>, clauseMatches: Set)
    returns (ok: bool, required': map<string, Set>)
    ensures ok <==> forall f :: f in c.fields ==> f in required
    ensures ok ==> NarrowedBy(c.fields, required, clauseMatches, required')
  {
    hide NarrowedBy;
    required' := required;
    NotNarrowed(required, clauseMatches);
    assert c.fields[..0] == [];
    for k := 0 to |c.fields|
      invariant required'.Keys == required.Keys
      invariant forall f :: f in c.fields[..k] ==> f in required
      invariant NarrowedBy(c.fields[..k], required, clauseMatches, required')
    {
      var field := c.fields[k];
      if field !in required' {
        assert field in c.fields && field !in required;
        return false, required';
      }
      NarrowedFurther(c.fields[..k], required, clauseMatches, required', field);
      required' := required'[field := required'[field].Intersect(clauseMatches)];
      assert c.fields[..k + 1] == c.fields[..k] + [field];
    }
    assert c.fields[..|c.fields|] == c.fields;
    ok := true;
  }

  /** What a required clause leaves before the narrowing loop, in terms of the sets it started from. */
  ghost predicate BeforeNarrowing(
    index: Index, c: Clause, required0: map<string, Set>, required: map<string, Set>, clauseMatches: Set)
  {
    && (forall f :: f in required0 ==> f in required)
    && (forall f :: f in required ==> f in required0 || f in c.fields)
    && (forall f :: f in required && f !in c.fields ==> required[f] == required0[f])
    && (forall f, d :: f in required && f in c.fields ==>
          (required[f].Contains(d) && clauseMatches.Contains(d) <==>
           (f in required0 ==> required0[f].Contains(d)) && Requirement(index, c, d)))
    && (c.terms != [] ==> forall f :: f in c.fields ==> f in required)
    && (c.terms == [] ==> required == required0)
  }

  lemma ReadyToNarrow(index: Index, c: Clause, st0: State, st: State, broken: bool, hits: Pairs)
    requires c.presence == REQUIRED && (broken <==> !EveryTermExpands(index, c))
    requires ClauseInv(index, c, st0, if broken then st.(required := st0.required) else st, hits)
    requires !broken ==> forall f, d :: (f, d) in hits <==> Hit(index, c, f, d)
    requires broken ==> forall f :: f in c.fields ==> f in st.required && st.required[f] == Empty
    requires broken ==> forall f :: f in st.required && f !in c.fields ==>
               f in st0.required && st.required[f] == st0.required[f]
    requires broken ==> forall f :: f in st0.required ==> f in st.required
    requires !broken && c.terms != [] ==> forall f :: f in c.fields ==> f in st.required
    requires c.terms == [] ==> st == st0
    ensures BeforeNarrowing(index, c, st0.required, st.required, st.clauseMatches)
  {
    hide CacheOk, Related, Hit, EveryTermExpands, InField;
    if !broken {
      forall d
        ensures st.clauseMatches.Contains(d) <==> Requirement(index, c, d)
      {
        assert ClauseMatches(index, c, d) <==> exists f :: (f, d) in hits;
      }
    }
  }

  /** One clause of the query; false is the TypeError. */
  method ClauseStep(arena: Arena, index: Index, clauses: seq<Clause>, n: nat, st: State) returns (ok: bool, st': State)
    requires arena.Valid() && IndexOk(arena.nodes, index) && n < |clauses|
    requires QueryInv(index, clauses, n, st)
    modifies arena
    ensures arena.Valid() && IndexOk(arena.nodes, index)
    ensures ok <==> !Throws(index, clauses, n)
    ensures ok ==> QueryInv(index, clauses, n + 1, st')
  {
    hide IndexOk, CacheOk, Hit, RequiredInv, ProhibitedInv, MatchingInv, Related, EveryTermExpands, Trips,
      ReadsUndefined, Requirement;
    var clause := clauses[n];
    var st0 := st.(clauseMatches := Empty);
    var broken; ghost var hits;
    assert CacheOk(index, st0) by { SameCache(index, st, st0); }
    ok, st', broken, hits := TermLoop(arena, index, clause, st0);
    if !ok {
      return;
    }
    if clause.presence == REQUIRED {
      ReadyToNarrow(index, clause, st0, st', broken, hits);
      ThrowsIff(index, clauses, n, st.required, st'.required, st'.clauseMatches);
      var required;
      ok, required := NarrowLoop(clause, st'.required, st'.clauseMatches);
      if !ok {
        return;
      }
      Narrowed(index, clauses, n, st.required, st'.required, required, st'.clauseMatches);
      SameCache(index, st', st'.(required := required));
      st' := st'.(required := required);
      MatchingNext(index, clauses, n, st.matching, st'.matching, hits, broken);
      ProhibitedUntouched(index, clauses, n, st.prohibited);
    } else {
      NoThrow(clauses, n);
      RequiredUntouched(index, clauses, n, st.required);
      if clause.presence == PROHIBITED {
        ProhibitedNext(index, clauses, n, st.prohibited, st'.prohibited);
        MatchingUntouched(index, clauses, n, st.matching);
      } else {
        MatchingNext(index, clauses, n, st.matching, st'.matching, hits, broken);
        ProhibitedUntouched(index, clauses, n, st.prohibited);
      }
    }
  }

  lemma SameCache(index: Index, st: State, st': State)
    requires CacheOk(index, st) && st'.cache == st.cache && st'.matching == st.matching
    ensures CacheOk(index, st')
  {
  }

  lemma NoThrow(clauses: seq<Clause>, n: nat)
    requires n < |clauses| && clauses[n].presence != REQUIRED
    ensures !ReadsUndefined(clauses, n)
  {
  }

  lemma ThrowsIff(
    index: Index, clauses: seq<Clause>, n: nat, required0: map<string, Set>, required: map<string, Set>,
    clauseMatches: Set)
    requires n < |clauses| && clauses[n].presence == REQUIRED && RequiredInv(index, clauses, n, required0)
    requires BeforeNarrowing(index, clauses[n], required0, required, clauseMatches)
    ensures ReadsUndefined(clauses, n) <==> !(forall f :: f in clauses[n].fields ==> f in required)
  {
    hide Requirement;
    forall f
      ensures f in required0 <==> !(forall i :: 0 <= i < n && clauses[i].presence == REQUIRED ==> f !in clauses[i].fields)
    {
      if i :| 0 <= i < n && clauses[i].presence == REQUIRED && f in clauses[i].fields {
        assert CountsBefore(clauses, n, REQUIRED, i);
      }
    }
  }

  lemma NarrowedField(
    index: Index, c: Clause, required0: map<string, Set>, required: map<string, Set>, required': map<string, Set>,
    clauseMatches: Set, f: string)
    requires BeforeNarrowing(index, c, required0, required, clauseMatches)
    requires f in c.fields && f in required && f in required' && NarrowedAt(true, required[f], clauseMatches, required'[f])
    ensures RequiredBy(index, c, required0, required', f)
  {
    hide Requirement;
    forall d
      ensures required'[f].Contains(d) <==>
              (f in required0 ==> required0[f].Contains(d)) && Requirement(index, c, d)
    {
      assert required'[f].Contains(d) <==> required[f].Contains(d) && clauseMatches.Contains(d);
    }
  }

  lemma UnnamedField(before: Set, clauseMatches: Set, after: Set)
    requires NarrowedAt(false, before, clauseMatches, after)
    ensures after == before
  {
  }

  lemma Narrowed(
    index: Index, clauses: seq<Clause>, n: nat, required0: map<string, Set>, required: map<string, Set>,
    required': map<string, Set>, clauseMatches: Set)
    requires n < |clauses| && clauses[n].presence == REQUIRED && RequiredInv(index, clauses, n, required0)
    requires BeforeNarrowing(index, clauses[n], required0, required, clauseMatches)
    requires forall f :: f in clauses[n].fields ==> f in required
    requires NarrowedBy(clauses[n].fields, required, clauseMatches, required')
    ensures RequiredInv(index, clauses, n + 1, required')
  {
    hide Requirement, RequiredInv, NarrowedAt;
    forall f | f in clauses[n].fields
      ensures RequiredBy(index, clauses[n], required0, required', f)
    {
      NarrowedField(index, clauses[n], required0, required, required', clauseMatches, f);
    }
    forall f | f in required0 && f !in clauses[n].fields
      ensures required'[f] == required0[f]
    {
      UnnamedField(required[f], clauseMatches, required'[f]);
    }
    RequiredNext(index, clauses, n, required0, required');
  }

  // ---------- the whole query ----------

  /** The loop that merges the required and prohibited sets of all fields. */
  method Combine(fields: seq<string>, required: map<string, Set>, prohibited: map<string, Set>)
    returns (allRequired: Set, allProhibited: Set)
    ensures forall d :: allRequired.Contains(d) <==> forall f :: f in fields && f in required ==> required[f].Contains(d)
    ensures forall d :: allProhibited.Contains(d) <==> exists f :: f in fields && InField(prohibited, f, d)
  {
    allRequired, allProhibited := Complete, Empty;
    for i := 0 to |fields|
      invariant forall d :: allRequired.Contains(d) <==>
                  forall f :: f in fields[..i] && f in required ==> required[f].Contains(d)
      invariant forall d :: allProhibited.Contains(d) <==> exists f :: f in fields[..i] && InField(prohibited, f, d)
    {
      var field := fields[i];
      assert fields[..i + 1] == fields[..i] + [field];
      if field in required {
        allRequired := allRequired.Intersect(required[field]);
      }
      ghost var before := allProhibited;
      if field in prohibited {
        allProhibited := allProhibited.Union(prohibited[field]);
      }
      assert forall d :: allProhibited.Contains(d) <==> before.Contains(d) || InField(prohibited, field, d);
    }
    assert fields[..|fields|] == fields;
  }

  /** The loop over the matching field references: one result for each document that passes. */
  method Collect(refs: set<string>, allRequired: Set, allProhibited: Set) returns (results: seq<string>)
    requires forall r :: r in refs ==> FromString(r).Parsed?
    ensures forall d :: d in results <==>
              && (exists r :: r in refs && FromString(r).docRef == d)
              && allRequired.Contains(d) && !allProhibited.Contains(d)
    ensures forall i, j :: 0 <= i < j < |results| ==> results[i] != results[j]
  {
    results := [];
    var rest := refs;
    while rest != {}
      invariant rest <= refs
      invariant forall d :: d in results <==>
                  && (exists r :: r in refs - rest && FromString(r).docRef == d)
                  && allRequired.Contains(d) && !allProhibited.Contains(d)
      invariant forall i, j :: 0 <= i < j < |results| ==> results[i] != results[j]
      decreases rest
    {
      var r :| r in rest;
      var docRef := FromString(r).docRef;
      assert refs - (rest - {r}) == refs - rest + {r};
      rest := rest - {r};
      if allRequired.Contains(docRef) && !allProhibited.Contains(docRef) && docRef !in results {
        results := results + [docRef];
      }
    }
    assert refs - rest == refs;
  }

  datatype Outcome = TypeError | Results(docs: seq<string>)

  lemma RequiredMeans(
    index: Index, clauses: seq<Clause>, required: map<string, Set>, allRequired: Set, d: string)
    requires RequiredInv(index, clauses, |clauses|, required)
    requires allRequired.Contains(d) <==>
             forall f :: f in index.fields && f in required ==> required[f].Contains(d)
    ensures allRequired.Contains(d) <==>
            forall c :: c in clauses && c.presence == REQUIRED && SomeKnown(index, c) ==> Requirement(index, c, d)
  {
    hide Requirement;
    if allRequired.Contains(d) {
      forall c | c in clauses && c.presence == REQUIRED && SomeKnown(index, c)
        ensures Requirement(index, c, d)
      {
        var j :| 0 <= j < |clauses| && clauses[j] == c;
        assert CountsBefore(clauses, |clauses|, REQUIRED, j);
        var f :| f in c.fields && f in index.fields;
        assert f in required;
      }
    }
    if forall c :: c in clauses && c.presence == REQUIRED && SomeKnown(index, c) ==> Requirement(index, c, d) {
      forall f | f in index.fields && f in required ensures required[f].Contains(d) {
        forall j | CountsBefore(clauses, |clauses|, REQUIRED, j) && f in clauses[j].fields
          ensures Requirement(index, clauses[j], d)
        {
          assert SomeKnown(index, clauses[j]) && clauses[j] in clauses;
        }
      }
    }
  }

  lemma ProhibitedMeans(
    index: Index, clauses: seq<Clause>, prohibited: map<string, Set>, allProhibited: Set, d: string)
    requires FieldsOk(index) && ProhibitedInv(index, clauses, |clauses|, prohibited)
    requires allProhibited.Contains(d) <==> exists f :: f in index.fields && InField(prohibited, f, d)
    ensures allProhibited.Contains(d) <==>
            exists c :: c in clauses && c.presence == PROHIBITED && ClauseMatches(index, c, d)
  {
    hide InField;
    if c :| c in clauses && c.presence == PROHIBITED && ClauseMatches(index, c, d) {
      var j :| 0 <= j < |clauses| && clauses[j] == c;
      assert CountsBefore(clauses, |clauses|, PROHIBITED, j);
      var f :| Hit(index, c, f, d);
      assert InField(prohibited, f, d) && f in index.fields;
    }
    if f :| f in index.fields && InField(prohibited, f, d) {
      var j :| CountsBefore(clauses, |clauses|, PROHIBITED, j) && Hit(index, clauses[j], f, d);
      assert ClauseMatches(index, clauses[j], d);
    }
  }

  /** For a document that meets every requirement, having a matching reference is matching some clause. */
  lemma MatchingMeans(index: Index, clauses: seq<Clause>, matching: set<string>, d: string)
    requires FieldsOk(index) && MatchingInv(index, clauses, |clauses|, matching)
    requires forall c :: c in clauses && c.presence == REQUIRED && SomeKnown(index, c) ==> Requirement(index, c, d)
    ensures (exists r :: r in matching && FromString(r) == Parsed(d, FromStringField(r))) <==>
            exists c :: c in clauses && c.presence != PROHIBITED && ClauseMatches(index, c, d)
  {
    hide EveryTermExpands;
    if r :| r in matching && FromString(r) == Parsed(d, FromStringField(r)) {
      var j, f, e :| 0 <= j < |clauses| && clauses[j].presence != PROHIBITED && Hit(index, clauses[j], f, e)
                     && r == FieldRef(e, f);
      FieldRefRoundTrip(e, f);
      assert ClauseMatches(index, clauses[j], d);
    }
    if c :| c in clauses && c.presence != PROHIBITED && ClauseMatches(index, c, d) {
      var j :| 0 <= j < |clauses| && clauses[j] == c;
      var f :| Hit(index, c, f, d);
      FieldRefRoundTrip(d, f);
      assert SomeKnown(index, c);
      assert FieldRef(d, f) in matching;
    }
  }

  function FromStringField(r: string): string {
    if FromString(r).Parsed? then FromString(r).fieldName else ""
  }

  lemma HitField(index: Index, c: Clause, f: string, d: string)
    requires Hit(index, c, f, d) && FieldsOk(index)
    ensures f in c.fields && f in index.fields
  {
  }

  lemma RefsParse(index: Index, clauses: seq<Clause>, matching: set<string>)
    requires FieldsOk(index) && MatchingInv(index, clauses, |clauses|, matching)
    ensures forall r :: r in matching ==> FromString(r).Parsed?
  {
    forall r | r in matching
      ensures FromString(r).Parsed?
    {
      var j, f, d :| 0 <= j < |clauses| && Hit(index, clauses[j], f, d) && r == FieldRef(d, f);
      HitField(index, clauses[j], f, d);
      FieldRefRoundTrip(d, f);
    }
  }

  lemma IndexedMeans(index: Index, d: string)
    requires forall f :: f in index.fields ==> JOINER !in f
    requires forall r :: r in index.fieldRefs ==> exists d, f :: f in index.fields && r == FieldRef(d, f)
    ensures forall r :: r in index.fieldRefs ==> FromString(r).Parsed?
    ensures (exists r :: r in index.fieldRefs && FromString(r) == Parsed(d, FromStringField(r))) <==> Indexed(index, d)
  {
    forall r | r in index.fieldRefs
      ensures FromString(r).Parsed?
    {
      var e, f :| f in index.fields && r == FieldRef(e, f);
      FieldRefRoundTrip(e, f);
    }
    if r :| r in index.fieldRefs && FromString(r) == Parsed(d, FromStringField(r)) {
      var e, f :| f in index.fields && r == FieldRef(e, f);
      FieldRefRoundTrip(e, f);
    }
    if f :| f in index.fields && FieldRef(d, f) in index.fieldRefs {
      FieldRefRoundTrip(d, f);
    }
  }

  /** Index.query: the documents of the results, in any order; or the TypeError of a term that has no posting,
      of a field that the index does not have, or of a required clause that the pipeline emptied. */
  method Query(arena: Arena, index: Index, clauses: seq<Clause>) returns (r: Outcome)
    requires arena.Valid() && IndexOk(arena.nodes, index)
    modifies arena
    ensures r == TypeError <==> exists j :: Throws(index, clauses, j)
    ensures r.Results? ==> forall d :: d in r.docs <==> Selected(index, clauses, d)
    ensures r.Results? ==> forall i, j :: 0 <= i < j < |r.docs| ==> r.docs[i] != r.docs[j]
  {
    hide IndexOk, Throws, CacheOk, RequiredInv, ProhibitedInv, MatchingInv, FieldsOk;
    var st := State(map[], map[], {}, {}, Empty);
    assert QueryInv(index, clauses, 0, st) by { NothingYet(index, clauses, st); }
    var i := 0;
    while i < |clauses|
      invariant 0 <= i <= |clauses| && arena.Valid() && IndexOk(arena.nodes, index)
      invariant QueryInv(index, clauses, i, st)
      invariant forall j: nat :: j < i ==> !Throws(index, clauses, j)
    {
      var ok;
      ok, st := ClauseStep(arena, index, clauses, i, st);
      if !ok {
        return TypeError;
      }
      i := i + 1;
    }
    NoneThrows(index, clauses);
    var allRequired, allProhibited := Combine(index.fields, st.required, st.prohibited);
    RefNames(arena.nodes, index);
    RefsParse(index, clauses, st.matching);
    IndexedMeans(index, "");
    var negated := forall c <- clauses :: c.presence == PROHIBITED;
    var docs := Collect(if negated then index.fieldRefs else st.matching, allRequired, allProhibited);
    forall d
      ensures d in docs <==> Selected(index, clauses, d)
    {
      Selects(index, clauses, st, allRequired, allProhibited, d);
      ParsedDoc(if negated then index.fieldRefs else st.matching, d);
    }
    r := Results(docs);
  }

  lemma RefNames(g: Graph, index: Index)
    requires IndexOk(g, index)
    ensures FieldsOk(index) && forall f :: f in index.fields ==> JOINER !in f
    ensures forall r :: r in index.fieldRefs ==> exists d, f :: f in index.fields && r == FieldRef(d, f)
  {
  }

  lemma ParsedDoc(refs: set<string>, d: string)
    requires forall r :: r in refs ==> FromString(r).Parsed?
    ensures (exists r :: r in refs && FromString(r).docRef == d) <==>
            exists r :: r in refs && FromString(r) == Parsed(d, FromStringField(r))
  {
    if r :| r in refs && FromString(r).docRef == d {
      assert FromString(r) == Parsed(d, FromStringField(r));
    }
    if r :| r in refs && FromString(r) == Parsed(d, FromStringField(r)) {
      assert FromString(r).docRef == d;
    }
  }

  lemma NothingYet(index: Index, clauses: seq<Clause>, st: State)
    requires st == State(map[], map[], {}, {}, Empty)
    ensures QueryInv(index, clauses, 0, st)
  {
  }

  lemma NoneThrows(index: Index, clauses: seq<Clause>)
    requires forall j: nat :: j < |clauses| ==> !Throws(index, clauses, j)
    ensures !exists j :: Throws(index, clauses, j)
  {
  }

  lemma Selects(index: Index, clauses: seq<Clause>, st: State, allRequired: Set, allProhibited: Set, d: string)
    requires FieldsOk(index) && QueryInv(index, clauses, |clauses|, st)
    requires forall r :: r in index.fieldRefs ==> exists d, f :: f in index.fields && r == FieldRef(d, f)
    requires allRequired.Contains(d) <==> forall f :: f in index.fields && f in st.required ==> st.required[f].Contains(d)
    requires allProhibited.Contains(d) <==> exists f :: f in index.fields && InField(st.prohibited, f, d)
    ensures Selected(index, clauses, d) <==>
            && allRequired.Contains(d) && !allProhibited.Contains(d)
            && exists r :: r in (if AllProhibited(clauses) then index.fieldRefs else st.matching)
                           && FromString(r) == Parsed(d, FromStringField(r))
  {
    hide Requirement, ClauseMatches, Indexed, MatchingInv, RequiredInv, ProhibitedInv, InField;
    RequiredMeans(index, clauses, st.required, allRequired, d);
    ProhibitedMeans(index, clauses, st.prohibited, allProhibited, d);
    if allRequired.Contains(d) {
      MatchingMeans(index, clauses, st.matching, d);
    }
    IndexedMeans(index, d);
  }
}

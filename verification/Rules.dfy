/** unifyRules of cmd/vacuum/publisher.go: cluster rules, lowered and extended by a namespace. */
module Rules {
  import opened VacuumSpec

  /** The count after the overrides that carry the name: the least of them and the original. */
  function Lowered(count: nat, name: string, overrides: seq<Rule>): (r: nat)
    ensures r <= count && forall i :: 0 <= i < |overrides| && overrides[i].name == name ==> r <= overrides[i].count
    ensures r == count || exists i :: 0 <= i < |overrides| && overrides[i].name == name && overrides[i].count == r
  {
    if overrides == [] then count else
      var n := |overrides| - 1;
      var prev := Lowered(count, name, overrides[..n]);
      if overrides[n].name == name && overrides[n].count < prev then overrides[n].count else prev
  }

  function Texts(rules: seq<Rule>): set<string> {
    set r | r in rules :: r.whenText
  }

  /** The namespace rules that are added: unnamed, with a predicate text not seen before, in order. */
  function Added(texts: set<string>, rules: seq<Rule>): seq<Rule> {
    if rules == [] then [] else
      var n := |rules| - 1;
      var prev := Added(texts, rules[..n]);
      if rules[n].name == "" && rules[n].whenText !in texts + Texts(prev) then prev + [rules[n]] else prev
  }

  /** The cluster rule that an override of its name reaches: the last one so named. */
  predicate IsTarget(rules: seq<Rule>, i: nat)
    requires i < |rules|
  {
    rules[i].name != "" && forall j :: i < j < |rules| ==> rules[j].name != rules[i].name
  }

  ghost predicate DistinctTexts(rules: seq<Rule>) {
    forall i, j :: 0 <= i < j < |rules| ==> rules[i].whenText != rules[j].whenText
  }

  ghost predicate Unified(cluster: seq<Rule>, namespace: seq<Rule>, unified: seq<Rule>) {
    && |unified| >= |cluster|
    && (forall i :: 0 <= i < |cluster| ==>
          unified[i] == if IsTarget(cluster, i)
                        then cluster[i].(count := Lowered(cluster[i].count, cluster[i].name, namespace))
                        else cluster[i])
    && unified[|cluster|..] == Added(Texts(cluster), namespace)
  }

  /** ruleNames maps a name to the last cluster rule so named. */
  ghost predicate NamesOk(cluster: seq<Rule>, n: nat, names: map<string, nat>)
    requires n <= |cluster|
  {
    && (forall name :: name in names ==>
          && names[name] < n && cluster[names[name]].name == name
          && forall j :: names[name] < j < n ==> cluster[j].name != name)
    && (forall i :: 0 <= i < n ==> cluster[i].name in names)
  }

  lemma TextsPush(rules: seq<Rule>, r: Rule)
    ensures Texts(rules + [r]) == Texts(rules) + {r.whenText}
  {
    assert forall x :: x in rules + [r] <==> x in rules || x == r;
    assert r in rules + [r];
    forall t | t in Texts(rules) + {r.whenText}
      ensures t in Texts(rules + [r])
    {
      if t in Texts(rules) {
        var x :| x in rules && x.whenText == t;
        assert x in rules + [r];
      }
    }
  }

  /** The loop over the namespace rules keeps the result unified with the part already read. */
  lemma NextRule(
    cluster: seq<Rule>, namespace: seq<Rule>, n: nat, names: map<string, nat>, unified: seq<Rule>, r: Rule)
    returns (next: seq<Rule>)
    requires n < |namespace| && r == namespace[n] && NamesOk(cluster, |cluster|, names)
    requires Unified(cluster, namespace[..n], unified)
    ensures next ==
            if r.name != "" then
              if r.name in names && r.count < unified[names[r.name]].count
              then unified[names[r.name] := unified[names[r.name]].(count := r.count)]
              else unified
            else if r.whenText in Texts(cluster) + Texts(unified[|cluster|..]) then unified else unified + [r]
    ensures Unified(cluster, namespace[..n + 1], next)
  {
    next :=
      if r.name != "" then
        if r.name in names && r.count < unified[names[r.name]].count
        then unified[names[r.name] := unified[names[r.name]].(count := r.count)]
        else unified
      else if r.whenText in Texts(cluster) + Texts(unified[|cluster|..]) then unified else unified + [r];
    assert namespace[..n + 1][..n] == namespace[..n];
    assert next[|cluster|..] == Added(Texts(cluster), namespace[..n + 1]);
    forall i | 0 <= i < |cluster|
      ensures next[i] == if IsTarget(cluster, i)
                         then cluster[i].(count := Lowered(cluster[i].count, cluster[i].name, namespace[..n + 1]))
                         else cluster[i]
    {
      assert IsTarget(cluster, i) <==> cluster[i].name != "" && names[cluster[i].name] == i;
    }
  }

  lemma NamesNext(cluster: seq<Rule>, n: nat, names: map<string, nat>)
    requires n < |cluster| && NamesOk(cluster, n, names)
    ensures NamesOk(cluster, n + 1, names[cluster[n].name := n])
  {
  }

  lemma NothingYet(cluster: seq<Rule>, namespace: seq<Rule>)
    ensures NamesOk(cluster, 0, map[]) && Texts([]) == {}
    ensures Unified(cluster, namespace[..0], cluster)
  {
    assert cluster[|cluster|..] == [];
  }

  /** The loop over the cluster rules. */
  method IndexCluster(clusterRules: seq<Rule>)
    returns (unified: seq<Rule>, ruleNames: map<string, nat>, celTexts: set<string>)
    ensures unified == clusterRules && NamesOk(clusterRules, |clusterRules|, ruleNames)
    ensures celTexts == Texts(clusterRules)
  {
    hide NamesOk, Texts;
    NothingYet(clusterRules, []);
    unified, ruleNames, celTexts := [], map[], {};
    var i := 0;
    while i < |clusterRules|
      invariant 0 <= i <= |clusterRules| && unified == clusterRules[..i]
      invariant NamesOk(clusterRules, i, ruleNames) && celTexts == Texts(unified)
    {
      var r := clusterRules[i];
      TextsPush(unified, r);
      NamesNext(clusterRules, i, ruleNames);
      unified := unified + [r];
      ruleNames := ruleNames[r.name := |unified| - 1];
      celTexts := celTexts + {r.whenText};
      i := i + 1;
    }
  }

  /** No name is used by two cluster rules. */
  ghost predicate UniqueNames(rules: seq<Rule>) {
    forall i, j :: 0 <= i < j < |rules| && rules[i].name != "" ==> rules[i].name != rules[j].name
  }

  lemma NamedRulesAreTargets(cluster: seq<Rule>, i: nat)
    requires UniqueNames(cluster) && i < |cluster| && cluster[i].name != ""
    ensures IsTarget(cluster, i)
  {
  }

  /** With unique names an override lowers exactly the rule it names. */
  lemma LoweredWhereNamed(cluster: seq<Rule>, namespace: seq<Rule>, unified: seq<Rule>)
    requires Unified(cluster, namespace, unified) && UniqueNames(cluster)
    ensures forall i :: 0 <= i < |cluster| && cluster[i].name != "" ==>
              unified[i].count == Lowered(cluster[i].count, cluster[i].name, namespace)
  {
    forall i | 0 <= i < |cluster| && cluster[i].name != ""
      ensures unified[i].count == Lowered(cluster[i].count, cluster[i].name, namespace)
    {
      NamedRulesAreTargets(cluster, i);
    }
  }

  /** The cluster rule with its count lowered to the least override of its name, if it is the last so named. */
  ghost predicate LoweredRule(cluster: seq<Rule>, namespace: seq<Rule>, i: nat, rule: Rule)
    requires i < |cluster|
  {
    && rule == cluster[i].(count := rule.count)
    && if cluster[i].name != "" && forall j :: i < j < |cluster| ==> cluster[j].name != cluster[i].name then
         && rule.count <= cluster[i].count
         && (forall n :: n in namespace && n.name == cluster[i].name ==> rule.count <= n.count)
         && (rule.count == cluster[i].count
             || exists n :: n in namespace && n.name == cluster[i].name && n.count == rule.count)
       else rule.count == cluster[i].count
  }

  /** Namespace rule n has no name and a predicate that neither the cluster nor an earlier unnamed rule has. */
  ghost predicate IsNew(cluster: seq<Rule>, namespace: seq<Rule>, n: nat)
    requires n < |namespace|
  {
    && namespace[n].name == ""
    && (forall c :: c in cluster ==> c.whenText != namespace[n].whenText)
    && (forall m :: 0 <= m < n && namespace[m].name == "" ==> namespace[m].whenText != namespace[n].whenText)
  }

  /** These are the new namespace rules, in their order. */
  ghost predicate NewRules(cluster: seq<Rule>, namespace: seq<Rule>, added: seq<Rule>) {
    exists at: seq<nat> :: NewRulesAt(cluster, namespace, added, at)
  }

  ghost predicate NewRulesAt(cluster: seq<Rule>, namespace: seq<Rule>, added: seq<Rule>, at: seq<nat>) {
    && |at| == |added| && (forall i, j :: 0 <= i < j < |at| ==> at[i] < at[j])
    && (forall i :: 0 <= i < |at| ==> at[i] < |namespace| && added[i] == namespace[at[i]])
    && (forall n: nat :: n < |namespace| ==> (n in at <==> IsNew(cluster, namespace, n)))
  }

  lemma RulesLowered(cluster: seq<Rule>, namespace: seq<Rule>, unified: seq<Rule>)
    requires Unified(cluster, namespace, unified)
    ensures forall i :: 0 <= i < |cluster| ==> LoweredRule(cluster, namespace, i, unified[i])
  {
    forall i | 0 <= i < |cluster|
      ensures LoweredRule(cluster, namespace, i, unified[i])
    {
      if IsTarget(cluster, i) {
        var r := unified[i].count;
        if r != cluster[i].count {
          var k :| 0 <= k < |namespace| && namespace[k].name == cluster[i].name && namespace[k].count == r;
          assert namespace[k] in namespace;
        }
      }
    }
  }

  lemma NewIffUnseen(cluster: seq<Rule>, namespace: seq<Rule>, n: nat)
    requires n < |namespace|
    ensures IsNew(cluster, namespace, n) <==>
            namespace[n].name == ""
            && namespace[n].whenText !in Texts(cluster) + Texts(Added(Texts(cluster), namespace[..n]))
  {
    var texts, before := Texts(cluster), namespace[..n];
    AddedTexts(texts, before);
    var t, unnamed := namespace[n].whenText, set r | r in before && r.name == "" :: r.whenText;
    assert Texts(Added(texts, before)) + texts == unnamed + texts;
    assert t in texts <==> exists c :: c in cluster && c.whenText == t;
    if t in unnamed {
      var r :| r in before && r.name == "" && r.whenText == t;
      var m :| 0 <= m < n && before[m] == r;
      assert namespace[m] == r;
    }
    forall m | 0 <= m < n && namespace[m].name == "" && namespace[m].whenText == t
      ensures t in unnamed
    {
      assert before[m] in before;
    }
    assert t in Texts(Added(texts, before)) + texts <==> t in unnamed + texts;
  }

  lemma NewInPrefix(cluster: seq<Rule>, namespace: seq<Rule>, n: nat, m: nat)
    requires m < n <= |namespace|
    ensures IsNew(cluster, namespace[..n], m) <==> IsNew(cluster, namespace, m)
  {
  }

  lemma AddedNext(cluster: seq<Rule>, namespace: seq<Rule>)
    requires namespace != []
    ensures var n := |namespace| - 1;
            var before := Added(Texts(cluster), namespace[..n]);
            Added(Texts(cluster), namespace) ==
            if IsNew(cluster, namespace, n) then before + [namespace[n]] else before
  {
    hide IsNew, Texts;
    NewIffUnseen(cluster, namespace, |namespace| - 1);
  }

  lemma NewRulesNext(cluster: seq<Rule>, namespace: seq<Rule>, added: seq<Rule>, at: seq<nat>)
    requires namespace != [] && NewRulesAt(cluster, namespace[..|namespace| - 1], added, at)
    ensures var n := |namespace| - 1;
            if IsNew(cluster, namespace, n) then NewRulesAt(cluster, namespace, added + [namespace[n]], at + [n])
            else NewRulesAt(cluster, namespace, added, at)
  {
    hide IsNew;
    var n := |namespace| - 1;
    forall m: nat | m < n ensures m in at <==> IsNew(cluster, namespace, m) {
      NewInPrefix(cluster, namespace, n, m);
      assert m in at <==> IsNew(cluster, namespace[..n], m);
    }
    assert n !in at;
    assert forall m :: m in at + [n] <==> m in at || m == n;
  }

  lemma {:induction false} AddedAreNew(cluster: seq<Rule>, namespace: seq<Rule>) returns (at: seq<nat>)
    ensures NewRulesAt(cluster, namespace, Added(Texts(cluster), namespace), at)
  {
    hide IsNew, Texts, NewRulesAt, Added;
    if namespace == [] {
      at := [];
      NothingAdded(cluster);
    } else {
      var n := |namespace| - 1;
      var before := AddedAreNew(cluster, namespace[..n]);
      AddedNext(cluster, namespace);
      NewRulesNext(cluster, namespace, Added(Texts(cluster), namespace[..n]), before);
      at := if IsNew(cluster, namespace, n) then before + [n] else before;
    }
  }

  lemma NothingAdded(cluster: seq<Rule>)
    ensures NewRulesAt(cluster, [], Added(Texts(cluster), []), [])
  {
  }

  /** unifyRules. The cluster rules are values here, as Go's append copies them. */
  method UnifyRules(clusterRules: seq<Rule>, namespaceRules: seq<Rule>) returns (unified: seq<Rule>)
    ensures Unified(clusterRules, namespaceRules, unified)
    ensures UniqueNames(clusterRules) ==> forall i :: 0 <= i < |clusterRules| && clusterRules[i].name != "" ==>
              unified[i].count == Lowered(clusterRules[i].count, clusterRules[i].name, namespaceRules)
    ensures |unified| >= |clusterRules|
            && (forall i :: 0 <= i < |clusterRules| ==> LoweredRule(clusterRules, namespaceRules, i, unified[i]))
            && NewRules(clusterRules, namespaceRules, unified[|clusterRules|..])
  {
    hide Unified, NamesOk, Texts, IsTarget, UniqueNames, LoweredRule, NewRulesAt;
    var ruleNames, celTexts;
    unified, ruleNames, celTexts := IndexCluster(clusterRules);
    NothingYet(clusterRules, namespaceRules);
    assert unified[|clusterRules|..] == [];
    var n := 0;
    while n < |namespaceRules|
      invariant 0 <= n <= |namespaceRules| && Unified(clusterRules, namespaceRules[..n], unified)
      invariant |unified| >= |clusterRules| && NamesOk(clusterRules, |clusterRules|, ruleNames)
      invariant celTexts == Texts(clusterRules) + Texts(unified[|clusterRules|..])
    {
      var r := namespaceRules[n];
      ghost var next := NextRule(clusterRules, namespaceRules, n, ruleNames, unified, r);
      NamesInRange(clusterRules, ruleNames);
      unified, celTexts := NamespaceRule(unified, ruleNames, celTexts, r, clusterRules);
      n := n + 1;
    }
    assert namespaceRules[..n] == namespaceRules;
    RulesLowered(clusterRules, namespaceRules, unified);
    UnifiedAdds(clusterRules, namespaceRules, unified);
    ghost var at := AddedAreNew(clusterRules, namespaceRules);
    if UniqueNames(clusterRules) {
      LoweredWhereNamed(clusterRules, namespaceRules, unified);
    }
  }

  lemma UnifiedAdds(cluster: seq<Rule>, namespace: seq<Rule>, unified: seq<Rule>)
    requires Unified(cluster, namespace, unified)
    ensures unified[|cluster|..] == Added(Texts(cluster), namespace)
  {
  }

  /** One namespace rule: an override lowers a count, an unnamed rule is added unless it is a duplicate. */
  method NamespaceRule(
    unified: seq<Rule>, ruleNames: map<string, nat>, celTexts: set<string>, r: Rule, ghost cluster: seq<Rule>)
    returns (unified': seq<Rule>, celTexts': set<string>)
    requires |cluster| <= |unified| && forall name :: name in ruleNames ==> ruleNames[name] < |cluster|
    requires celTexts == Texts(cluster) + Texts(unified[|cluster|..])
    ensures unified' ==
            if r.name != "" then
              if r.name in ruleNames && r.count < unified[ruleNames[r.name]].count
              then unified[ruleNames[r.name] := unified[ruleNames[r.name]].(count := r.count)]
              else unified
            else if r.whenText in celTexts then unified else unified + [r]
    ensures celTexts' == Texts(cluster) + Texts(unified'[|cluster|..]) && |unified'| >= |unified|
  {
    hide Texts;
    unified', celTexts' := unified, celTexts;
    if r.name != "" {
      if r.name in ruleNames {
        var idx := ruleNames[r.name];
        if r.count < unified[idx].count {
          unified' := unified[idx := unified[idx].(count := r.count)];
        }
      }
      assert unified'[|cluster|..] == unified[|cluster|..];
    } else if r.whenText !in celTexts {
      TextsPush(unified[|cluster|..], r);
      unified' := unified + [r];
      assert unified'[|cluster|..] == unified[|cluster|..] + [r];
      celTexts' := celTexts + {r.whenText};
    }
  }

  lemma NamesInRange(cluster: seq<Rule>, names: map<string, nat>)
    requires NamesOk(cluster, |cluster|, names)
    ensures forall name :: name in names ==> names[name] < |cluster|
  {
  }

  // ---------- what the unified rules promise ----------

  lemma DistinctPush(rules: seq<Rule>, r: Rule)
    requires DistinctTexts(rules) && r.whenText !in Texts(rules)
    ensures DistinctTexts(rules + [r])
  {
    forall i | 0 <= i < |rules|
      ensures rules[i].whenText in Texts(rules)
    {
      assert rules[i] in rules;
    }
  }

  lemma {:induction false} AddedTexts(texts: set<string>, rules: seq<Rule>)
    ensures DistinctTexts(Added(texts, rules)) && Texts(Added(texts, rules)) !! texts
    ensures forall r :: r in Added(texts, rules) ==> r in rules && r.name == ""
    ensures Texts(Added(texts, rules)) + texts ==
            (set r | r in rules && r.name == "" :: r.whenText) + texts
  {
    if rules != [] {
      hide Texts, DistinctTexts;
      var n := |rules| - 1;
      var prev := Added(texts, rules[..n]);
      AddedTexts(texts, rules[..n]);
      if rules[n].whenText !in Texts(prev) {
        TextsPush(prev, rules[n]);
        DistinctPush(prev, rules[n]);
      }
      assert rules == rules[..n] + [rules[n]];
    } else {
      NothingYet([], []);
    }
  }

  /** Distinct predicate texts stay distinct, and every predicate of either level is covered. */
  lemma UnifiedCovers(cluster: seq<Rule>, namespace: seq<Rule>, unified: seq<Rule>)
    requires Unified(cluster, namespace, unified)
    ensures DistinctTexts(cluster) ==> DistinctTexts(unified)
    ensures Texts(unified) == Texts(cluster) + set r | r in namespace && r.name == "" :: r.whenText
  {
    var n, added := |cluster|, Added(Texts(cluster), namespace);
    AddedTexts(Texts(cluster), namespace);
    assert unified == unified[..n] + added;
    TextsConcat(unified[..n], added);
    SameTexts(unified[..n], cluster);
    if DistinctTexts(cluster) {
      DistinctConcat(unified[..n], added);
    }
  }

  lemma TextsConcat(a: seq<Rule>, b: seq<Rule>)
    ensures Texts(a + b) == Texts(a) + Texts(b)
  {
    assert forall r :: r in a + b <==> r in a || r in b;
  }

  lemma SameTexts(a: seq<Rule>, b: seq<Rule>)
    requires |a| == |b| && forall i :: 0 <= i < |a| ==> a[i].whenText == b[i].whenText
    ensures Texts(a) == Texts(b)
  {
    forall r | r in a
      ensures r.whenText in Texts(b)
    {
      var i :| 0 <= i < |a| && a[i] == r;
      assert b[i] in b;
    }
    forall r | r in b
      ensures r.whenText in Texts(a)
    {
      var i :| 0 <= i < |b| && b[i] == r;
      assert a[i] in a;
    }
  }

  lemma DistinctConcat(a: seq<Rule>, b: seq<Rule>)
    requires DistinctTexts(a) && DistinctTexts(b) && Texts(a) !! Texts(b)
    ensures DistinctTexts(a + b)
  {
    forall i, j | 0 <= i < j < |a + b|
      ensures (a + b)[i].whenText != (a + b)[j].whenText
    {
      if i < |a| <= j {
        assert a[i] in a && a[i].whenText in Texts(a);
        assert b[j - |a|] in b && b[j - |a|].whenText in Texts(b);
      }
    }
  }
}

/** parallel_make/parmake.c: tricolour cycle detection over all goals, goal filtering and rule ordering. */
module RuleCycles {
  import opened RuleGraph

  datatype Colour = White | Grey | Black

  type Colours = map<Key, Colour>

  /** A grey vertex reaches a cycle or is being visited; the black ones are `done`, dependencies first. */
  ghost predicate ColoursOk(g: Graph, colours: Colours, done: seq<Key>, stack: seq<Key>) {
    && Closed(g) && colours.Keys == g.Keys && Ordered(g, done)
    && (forall v :: v in g ==> (colours[v] == Black <==> v in done))
    && (forall v :: v in g && colours[v] == Grey ==> ReachesCycle(g, v) || v in stack)
    && (forall v :: v in stack ==> v in g && colours[v] == Grey)
  }

  ghost function Whites(colours: Colours): set<Key> {
    set v | v in colours && colours[v] == White
  }

  /** A visit that found no cycle has greyed nothing; one that did has greyed only vertices that reach cycles. */
  ghost predicate Visited(g: Graph, c0: Colours, d0: seq<Key>, c1: Colours, d1: seq<Key>, cycle: bool)
    requires c0.Keys == g.Keys && c1.Keys == g.Keys
  {
    && d0 <= d1 && Whites(c1) <= Whites(c0)
    && (forall v :: v in g && c0[v] != White ==> c1[v] == c0[v])
    && (forall v :: v in g && c1[v] == Grey ==> c0[v] == Grey || (cycle && ReachesCycle(g, v)))
  }

  /** The visited path with the target behind it. */
  ghost predicate OnPath(g: Graph, stack: seq<Key>, target: Key) {
    target in g && Path(g, stack + [target])
  }

  lemma GreyAgain(g: Graph, stack: seq<Key>, target: Key)
    requires OnPath(g, stack, target) && target in stack
    ensures ReachesCycle(g, target)
  {
    var p := stack + [target];
    var i :| 0 <= i < |stack| && stack[i] == target;
    assert p[i] == target && p[|p| - 1] == target;
    PathClosesCycle(g, p, i);
  }

  lemma ChildOnPath(g: Graph, stack: seq<Key>, target: Key, child: Key)
    requires Closed(g) && OnPath(g, stack, target) && child in g[target]
    ensures OnPath(g, stack + [target], child)
  {
    PathExtend(g, stack + [target], child);
  }

  /** Greying a white target puts it on the visited path. */
  lemma Enter(g: Graph, colours: Colours, done: seq<Key>, stack: seq<Key>, target: Key)
    requires ColoursOk(g, colours, done, stack) && target in g && colours[target] == White
    ensures ColoursOk(g, colours[target := Grey], done, stack + [target])
    ensures Whites(colours[target := Grey]) < Whites(colours)
  {
    hide Ordered, ReachesCycle, Closed;
    assert target in Whites(colours) && target !in Whites(colours[target := Grey]);
  }

  /** With all children black the target turns black and is finished. */
  lemma Leave(g: Graph, colours: Colours, done: seq<Key>, stack: seq<Key>, target: Key)
    requires ColoursOk(g, colours, done, stack + [target]) && target !in stack
    requires target in g && (forall d :: d in g[target] ==> d in done)
    ensures ColoursOk(g, colours[target := Black], done + [target], stack)
  {
    assert target in stack + [target];
    OrderedAppend(g, done, target);
    hide Ordered, ReachesCycle, Closed;
    forall v | v in stack
      ensures v in g && colours[v] == Grey
    {
      assert v in stack + [target];
    }
  }

  /** Once a child reached a cycle the target needs no path to stay grey. */
  lemma LeaveGrey(g: Graph, colours: Colours, done: seq<Key>, stack: seq<Key>, target: Key)
    requires ColoursOk(g, colours, done, stack + [target]) && ReachesCycle(g, target)
    ensures ColoursOk(g, colours, done, stack) && target in g && colours[target] == Grey
  {
    hide Ordered, ReachesCycle, Closed;
    assert target in stack + [target];
    forall v | v in stack
      ensures v in g && colours[v] == Grey
    {
      assert v in stack + [target];
    }
  }

  /** The effect of a whole visit, from the effect of its children. */
  lemma VisitedWhole(g: Graph, c0: Colours, d0: seq<Key>, c1: Colours, d1: seq<Key>, target: Key, cycle: bool)
    requires c0.Keys == g.Keys && target in g && c0[target] == White && c1.Keys == g.Keys
    requires Visited(g, c0[target := Grey], d0, c1, d1, cycle) && (cycle ==> ReachesCycle(g, target))
    ensures cycle ==> Visited(g, c0, d0, c1, d1, true)
    ensures !cycle ==> Visited(g, c0, d0, c1[target := Black], d1 + [target], false)
  {
    hide ReachesCycle;
  }

  lemma VisitedTrans(g: Graph, c0: Colours, d0: seq<Key>, c1: Colours, d1: seq<Key>, c2: Colours, d2: seq<Key>,
                     cycle: bool)
    requires c0.Keys == g.Keys && c1.Keys == g.Keys && c2.Keys == g.Keys
    requires Visited(g, c0, d0, c1, d1, false) && Visited(g, c1, d1, c2, d2, cycle)
    ensures Visited(g, c0, d0, c2, d2, cycle)
  {
    hide ReachesCycle;
  }

  class Make {
    var g: Graph
    var mp: Colours
    var rules: seq<Key>
    /** The set `cnt` of the targets already listed. */
    var cnt: set<Key>
    ghost var done: seq<Key>

    /** The graph of the parser, every vertex white. */
    constructor (g: Graph)
      requires Closed(g)
      ensures this.g == g && rules == [] && cnt == {} && done == [] && ColoursOk(g, mp, done, [])
      ensures forall v :: v in g ==> mp[v] == White
    {
      this.g := g;
      mp := map v | v in g :: White;
      rules, done, cnt := [], [], {};
    }

    /** `tricolor`: 1 exactly if the target reaches a cycle, whatever earlier calls left grey or black. */
    method Tricolor(target: Key, ghost stack: seq<Key>) returns (cycle: bool)
      requires ColoursOk(g, mp, done, stack) && OnPath(g, stack, target)
      modifies `mp, `done
      ensures ColoursOk(g, mp, done, stack) && Visited(g, old(mp), old(done), mp, done, cycle)
      ensures cycle <==> ReachesCycle(g, target)
      ensures cycle ==> mp[target] == Grey
      ensures !cycle ==> mp[target] == Black
      decreases Whites(mp)
    {
      hide Ordered, ReachesCycle, Path, Visited, Whites, Cycle, PathFromTo;
      if mp[target] == Grey {
        if target in stack {
          GreyAgain(g, stack, target);
        }
        NothingVisited(g, mp, done);
        return true;
      } else if mp[target] == Black {
        OrderedReachesNoCycle(g, done, target);
        NothingVisited(g, mp, done);
        return false;
      }
      ghost var c0, d0, inner := mp, done, stack + [target];
      Enter(g, mp, done, stack, target);
      mp := mp[target := Grey];
      var children := g[target];
      ghost var c1 := mp;
      NothingVisited(g, mp, done);
      for i := 0 to |children|
        invariant ColoursOk(g, mp, done, inner) && Whites(mp) <= Whites(c1)
        invariant Visited(g, c1, d0, mp, done, false)
        invariant forall j :: 0 <= j < i ==> children[j] in done
      {
        ghost var c2, d2 := mp, done;
        ChildOnPath(g, stack, target, children[i]);
        var isCycle := Tricolor(children[i], inner);
        VisitedTrans(g, c1, d0, c2, d2, mp, done, isCycle);
        VisitedMeans(g, c2, d2, mp, done, isCycle);
        if isCycle {
          ReachesCycleStep(g, target, children[i]);
          LeaveGrey(g, mp, done, stack, target);
          VisitedWhole(g, c0, d0, mp, done, target, true);
          return true;
        }
      }
      Leave(g, mp, done, stack, target);
      VisitedWhole(g, c0, d0, mp, done, target, false);
      mp := mp[target := Black];
      done := done + [target];
      OrderedReachesNoCycle(g, done, target);
      return false;
    }

    /** The first loop of `parmake`: every goal is tested with one colour map. */
    method TestGoals(goals: seq<Key>) returns (failed: seq<bool>)
      requires ColoursOk(g, mp, done, []) && (forall t :: t in goals ==> t in g)
      modifies `mp, `done
      ensures ColoursOk(g, mp, done, []) && |failed| == |goals|
      ensures forall i :: 0 <= i < |goals| ==> (failed[i] <==> ReachesCycle(g, goals[i]))
      ensures forall t :: t in goals ==> mp[t] != White
    {
      hide Ordered, ReachesCycle, Closed, Path;
      failed := [];
      for i := 0 to |goals|
        invariant ColoursOk(g, mp, done, []) && |failed| == i
        invariant forall j :: 0 <= j < i ==> (failed[j] <==> ReachesCycle(g, goals[j]))
        invariant forall j :: 0 <= j < i ==> goals[j] in g && mp[goals[j]] != White
      {
        StartPath(g, goals[i]);
        var cycle := Tricolor(goals[i], []);
        failed := failed + [cycle];
      }
    }

    /**
      The second loop of `parmake`, over the dictionary keys in any order: grey vertices leave the graph, other goals
      are kept.
     */
    method FilterGoals(goals: seq<Key>, keys: seq<Key>) returns (valid: seq<Key>)
      requires ColoursOk(g, mp, done, []) && Distinct(keys) && (forall v :: v in keys <==> v in mp)
      requires forall t :: t in goals ==> t in g && mp[t] != White
      modifies `g
      ensures Distinct(valid) && (forall v :: v in valid <==> v in goals && !ReachesCycle(old(g), v))
      ensures forall v :: v in g <==> v in old(g) && mp[v] != Grey
      ensures Ordered(g, done) && (forall v :: v in done ==> v in g && g[v] == old(g)[v])
      ensures forall v :: v in valid ==> v in done
    {
      hide Ordered, ReachesCycle;
      ghost var g0 := g;
      valid := [];
      BlackDeps(g, mp, done);
      for i := 0 to |keys|
        invariant forall v :: v in g <==> v in g0 && !(v in keys[..i] && mp[v] == Grey)
        invariant forall v :: v in done ==> v in g && g[v] == g0[v]
        invariant Distinct(valid) && (forall v :: v in valid <==> v in keys[..i] && mp[v] != Grey && v in goals)
      {
        var key := keys[i];
        assert key in keys && keys[..i + 1] == keys[..i] + [key] && key !in keys[..i];
        if mp[key] == Grey {
          assert forall v :: v in done ==> key !in g[v];
          g := RemoveVertex(g, key);
        } else if key in goals {
          valid := valid + [key];
        }
      }
      assert keys[..|keys|] == keys;
      OrderedElsewhere(g0, g, done);
      GoalColours(g0, mp, done, goals);
    }

    /**
      `get_rules`: depth first, a target is listed after its dependencies; `order` is the order the targets were
      blackened in.
     */
    method GetRules(targets: seq<Key>, ghost order: seq<Key>, ghost bound: nat)
      requires Ordered(g, order) && Listed(g, rules, cnt)
      requires forall t :: t in targets ==> t in order && Rank(order, t) < bound
      modifies `rules, `cnt
      ensures Listed(g, rules, cnt) && old(rules) <= rules
      ensures forall t :: t in targets ==> t in rules
      ensures forall v :: v in rules ==> v in old(rules) || FromTargets(g, targets, v)
      decreases bound
    {
      hide Ordered, FromTargets, Listed;
      for i := 0 to |targets|
        invariant Listed(g, rules, cnt) && old(rules) <= rules
        invariant forall j :: 0 <= j < i ==> targets[j] in rules
        invariant forall v :: v in rules ==> v in old(rules) || FromTargets(g, targets, v)
      {
        var target := targets[i];
        assert target in targets;
        DepsBelow(g, order, target);
        ghost var before := rules;
        var dependencies := g[target];
        GetRules(dependencies, order, Rank(order, target));
        TargetsOfDeps(g, targets, target);
        ListedMeans(g, rules, cnt);
        if target !in cnt {
          ListMore(g, rules, cnt, target);
          cnt := cnt + {target};
          rules := rules + [target];
        }
      }
    }

    /** `get_rules_in_order`: exactly the descendants of the targets, each once, dependencies first. */
    method GetRulesInOrder(targets: seq<Key>, ghost order: seq<Key>)
      requires Ordered(g, order) && rules == [] && cnt == {} && (forall t :: t in targets ==> t in order)
      modifies `rules, `cnt
      ensures Distinct(rules) && DepsEarlier(g, rules)
      ensures forall v :: v in rules <==> FromTargets(g, targets, v)
    {
      GetRules(targets, order, |order|);
      hide Distinct, FromTargets;
      forall v | FromTargets(g, targets, v)
        ensures v in rules
      {
        ListedDescendants(g, rules, targets, v);
      }
    }

    /** `parmake` up to the start of the threads. */
    method Prepare(goals: seq<Key>, keys: seq<Key>) returns (failed: seq<bool>)
      requires ColoursOk(g, mp, done, []) && rules == [] && cnt == {}
      requires (forall t :: t in goals ==> t in g) && Distinct(keys) && (forall v :: v in keys <==> v in g)
      modifies this
      ensures |failed| == |goals| && (forall i :: 0 <= i < |goals| ==> (failed[i] <==> ReachesCycle(old(g), goals[i])))
      ensures Ordered(old(g), rules) && Ordered(g, rules)
      ensures forall v :: v in rules <==> exists t :: t in goals && !ReachesCycle(old(g), t) && Reaches(old(g), t, v)
      ensures forall v :: v in rules ==> v in g && v in old(g) && g[v] == old(g)[v]
    {
      hide Ordered, ReachesCycle, Reaches, Distinct, ColoursOk;
      ghost var g0 := g;
      KeysOfColours(g, mp, done);
      failed := TestGoals(goals);
      KeysOfColours(g, mp, done);
      var valid := FilterGoals(goals, keys);
      GetRulesInOrder(valid, done);
      ValidDescendants(g0, g, done, goals, valid, rules);
    }
  }

  lemma KeysOfColours(g: Graph, colours: Colours, done: seq<Key>)
    requires ColoursOk(g, colours, done, [])
    ensures colours.Keys == g.Keys && Ordered(g, done)
  {
  }

  lemma ValidDescendants(g0: Graph, g: Graph, done: seq<Key>, goals: seq<Key>, valid: seq<Key>, rules: seq<Key>)
    requires Ordered(g0, done) && Ordered(g, done) && (forall v :: v in done ==> v in g0 && v in g && g[v] == g0[v])
    requires forall v :: v in valid <==> v in goals && !ReachesCycle(g0, v)
    requires forall v :: v in valid ==> v in done
    requires DepsEarlier(g, rules) && (forall v :: v in rules <==> FromTargets(g, valid, v))
    ensures forall v :: v in rules <==> exists t :: t in goals && !ReachesCycle(g0, t) && Reaches(g0, t, v)
    ensures forall v :: v in rules ==> v in g && v in g0 && g[v] == g0[v]
    ensures DepsEarlier(g0, rules)
    ensures Distinct(rules) ==> Ordered(g0, rules) && Ordered(g, rules)
  {
    hide ReachesCycle, Reaches, Distinct;
    forall t, v | t in valid
      ensures Reaches(g0, t, v) <==> Reaches(g, t, v)
    {
      SameReach(g0, g, done, t, v);
    }
    forall v | v in rules
      ensures v in done
    {
      var t :| t in valid && Reaches(g, t, v);
      OrderedReachesNoCycle(g, done, t);
    }
    forall i, d | 0 <= i < |rules| && rules[i] in g0 && d in g0[rules[i]]
      ensures d in rules[..i]
    {
      assert rules[i] in rules;
    }
  }

  /** The list and the set hold the same targets, each once, dependencies first. */
  ghost predicate Listed(g: Graph, rules: seq<Key>, cnt: set<Key>) {
    && Distinct(rules) && DepsEarlier(g, rules)
    && (forall v :: v in rules <==> v in cnt)
  }

  lemma ListedMeans(g: Graph, rules: seq<Key>, cnt: set<Key>)
    requires Listed(g, rules, cnt)
    ensures forall v :: v in rules <==> v in cnt
  {
  }

  lemma ListMore(g: Graph, rules: seq<Key>, cnt: set<Key>, v: Key)
    requires Listed(g, rules, cnt) && v !in cnt && v in g && (forall d :: d in g[v] ==> d in rules)
    ensures Listed(g, rules + [v], cnt + {v})
  {
    var r := rules + [v];
    forall i, d | 0 <= i < |r| && r[i] in g && d in g[r[i]]
      ensures d in r[..i]
    {
      assert r[..i] == rules[..i];
    }
  }

  lemma DepsBelow(g: Graph, order: seq<Key>, v: Key)
    requires Ordered(g, order) && v in order
    ensures v in g && (forall d :: d in g[v] ==> d in order && Rank(order, d) < Rank(order, v))
  {
    forall d | d in g[v]
      ensures d in order && Rank(order, d) < Rank(order, v)
    {
      RankBelow(g, order, v, d);
    }
  }

  lemma TargetsOfDeps(g: Graph, targets: seq<Key>, t: Key)
    requires t in targets && t in g
    ensures forall v :: FromTargets(g, g[t], v) ==> FromTargets(g, targets, v)
    ensures FromTargets(g, targets, t)
  {
    hide Reaches;
    ReachesSelf(g, t);
    forall v | FromTargets(g, g[t], v)
      ensures FromTargets(g, targets, v)
    {
      var d :| d in g[t] && Reaches(g, d, v);
      ReachesStep(g, t, d, v);
    }
  }

  lemma StartPath(g: Graph, t: Key)
    requires t in g
    ensures OnPath(g, [], t)
  {
  }

  lemma BlackDeps(g: Graph, colours: Colours, done: seq<Key>)
    requires ColoursOk(g, colours, done, [])
    ensures forall v, d :: v in done && d in g[v] ==> d in done
    ensures forall v :: v in done ==> v in g && colours[v] == Black
  {
    forall v, d | v in done && d in g[v]
      ensures d in done
    {
      RankBelow(g, done, v, d);
    }
  }

  lemma OrderedElsewhere(g: Graph, h: Graph, s: seq<Key>)
    requires Ordered(g, s) && (forall v :: v in s ==> v in g && v in h && h[v] == g[v])
    ensures Ordered(h, s)
  {
    forall i, d | 0 <= i < |s| && s[i] in h && d in h[s[i]]
      ensures d in s[..i]
    {
      assert s[i] in s;
    }
    forall i | 0 <= i < |s|
      ensures s[i] in h
    {
      assert s[i] in s;
    }
  }

  /** A tested goal is grey exactly if it reaches a cycle. */
  lemma GoalColours(g: Graph, colours: Colours, done: seq<Key>, goals: seq<Key>)
    requires ColoursOk(g, colours, done, []) && (forall t :: t in goals ==> t in g && colours[t] != White)
    ensures forall t :: t in goals ==> (colours[t] == Grey <==> ReachesCycle(g, t))
    ensures forall t :: t in goals && colours[t] != Grey ==> t in done
  {
    forall t | t in goals
      ensures colours[t] == Grey <==> ReachesCycle(g, t)
    {
      if colours[t] == Black {
        OrderedReachesNoCycle(g, done, t);
      }
    }
  }

  lemma NothingVisited(g: Graph, c: Colours, d: seq<Key>)
    requires c.Keys == g.Keys
    ensures Visited(g, c, d, c, d, false) && Visited(g, c, d, c, d, true)
  {
  }

  lemma VisitedMeans(g: Graph, c0: Colours, d0: seq<Key>, c1: Colours, d1: seq<Key>, cycle: bool)
    requires c0.Keys == g.Keys && c1.Keys == g.Keys && Visited(g, c0, d0, c1, d1, cycle)
    ensures d0 <= d1 && Whites(c1) <= Whites(c0)
  {
  }
}

/** `parmake` as a whole: the goals are tested and their rules listed, and the threads build the list. */
module ParallelMake {
  import opened RuleGraph
  import opened RuleCycles
  import opened WorkerPool
  import opened WorkerPoolProof
  import opened Wrappers

  /** A target of the build: a goal that reaches no cycle, or something such a goal reaches. */
  ghost predicate Wanted(g: Graph, goals: seq<Key>, v: Key) {
    exists t :: t in goals && !ReachesCycle(g, t) && Reaches(g, t, v)
  }

  /** No thread can take another step. */
  ghost predicate Stopped(c: Config, s: Pool)
    requires PoolInv(c, s)
  {
    PoolReads(c, s);
    forall w :: 0 <= w < |s.workers| ==> Apply(c, s, Turn(w)).None?
  }

  /**
    What is left when the threads have stopped: the targets of the build, with the states of a build with one thread.
   */
  ghost predicate BuiltAsWanted(g: Graph, goals: seq<Key>, c: Config, s: Pool) {
    && AllExited(s) && (forall v :: v in s.state <==> Wanted(g, goals, v)) && s.state == Sequential(c, |c.order|).state
    && Distinct(s.started) && (forall v :: v in s.started <==> v in Sequential(c, |c.order|).ran)
  }

  lemma ListIsConfig(g0: Graph, g: Graph, rules: seq<Key>, files: set<Key>, succeeds: set<Key>)
    requires Ordered(g, rules) && (forall v :: v in rules ==> v in g && v in g0 && g[v] == g0[v])
    requires forall v :: v in g0 && g0[v] != [] ==> v !in files
    ensures ConfigOk(Config(g, rules, files, succeeds))
  {
  }

  lemma BuiltTargets(c: Config)
    requires ConfigOk(c)
    ensures forall v :: v in Sequential(c, |c.order|).state <==> v in c.order
  {
    hide Meaning, ShouldRun, ConfigOk, Sequential;
    SequentialIsMeaning(c, |c.order|);
    assert c.order[..|c.order|] == c.order;
  }

  /**
    However their steps are scheduled the threads stop, and then exactly what the good goals reach is built, as one
    thread would.
   */
  lemma GoalsAreBuilt(g0: Graph, goals: seq<Key>, c: Config, n: nat, events: seq<Event>)
    requires ConfigOk(c) && n > 0 && (forall v :: v in c.order <==> Wanted(g0, goals, v))
    ensures PoolInv(c, Initial(c, n))
    ensures Schedule(c, Initial(c, n), events) ==>
              && |events| <= Measure(c, Initial(c, n)) + (|c.order| + 6) * Wakeups(events)
              && (Stopped(c, After(c, Initial(c, n), events)) ==>
                    BuiltAsWanted(g0, goals, c, After(c, Initial(c, n), events)))
  {
    hide Wanted, ConfigOk, PoolInv, Sequential, Measure, Schedule, After, Meaning, ShouldRun, BuiltOk, Apply, Initial;
    ParallelBuildIsSequential(c, n, events);
    BuiltTargets(c);
  }

  /** `parmake`, with the schedule of its threads given; targets with dependencies are not files. */
  method Parmake(make: Make, goals: seq<Key>, keys: seq<Key>, files: set<Key>, succeeds: set<Key>, n: nat,
                 ghost events: seq<Event>)
    returns (failed: seq<bool>)
    requires ColoursOk(make.g, make.mp, make.done, []) && make.rules == [] && make.cnt == {} && n > 0
    requires (forall t :: t in goals ==> t in make.g) && Distinct(keys) && (forall v :: v in keys <==> v in make.g)
    requires forall v :: v in make.g && make.g[v] != [] ==> v !in files
    modifies make
    ensures |failed| == |goals|
    ensures forall i :: 0 <= i < |goals| ==> (failed[i] <==> ReachesCycle(old(make.g), goals[i]))
    ensures var c := Config(make.g, make.rules, files, succeeds);
            && ConfigOk(c) && PoolInv(c, Initial(c, n))
            && (Schedule(c, Initial(c, n), events) ==>
                  && |events| <= Measure(c, Initial(c, n)) + (|c.order| + 6) * Wakeups(events)
                  && (Stopped(c, After(c, Initial(c, n), events)) ==>
                        BuiltAsWanted(old(make.g), goals, c, After(c, Initial(c, n), events))))
  {
    hide ReachesCycle, Reaches, Ordered, ColoursOk, ConfigOk, PoolInv, Schedule, After, Measure, BuiltAsWanted, Stopped;
    ghost var g0 := make.g;
    failed := make.Prepare(goals, keys);
    ListIsConfig(g0, make.g, make.rules, files, succeeds);
    GoalsAreBuilt(g0, goals, Config(make.g, make.rules, files, succeeds), n, events);
  }
}

/** The race of parmake.c between the last status a scan reads and the wait behind it, as a run of the pool. */
module MissedBroadcast {
  import opened RuleGraph
  import opened WorkerPool
  import opened WorkerPoolProof
  import opened Wrappers

  lemma {:induction false} RunMore(c: Config, s: Pool, events: seq<Event>, e: Event)
    requires PoolInv(c, s) && Apply(c, Run(c, s, events), e).Some?
    ensures Run(c, s, events + [e]) == Apply(c, Run(c, s, events), e).value
    decreases |events|
  {
    hide PoolInv, Apply;
    PoolReads(c, s);
    if events == [] {
      assert (events + [e])[1..] == [];
    } else {
      assert (events + [e])[1..] == events[1..] + [e];
      if Apply(c, s, events[0]).Some? {
        ApplyKeepsInv(c, s, events[0]);
        RunMore(c, Apply(c, s, events[0]).value, events[1..], e);
      } else {
        RunMore(c, s, events[1..], e);
      }
    }
  }

  /** Two rules, the second of which depends on the first; both succeed. */
  function TwoRules(): Config {
    Config(map[0 := [], 1 := [0]], [0, 1], {}, {0, 1})
  }

  lemma TwoRulesOk()
    ensures ConfigOk(TwoRules())
  {
    var c := TwoRules();
    assert c.order[0] == 0 && c.order[1] == 1;
    forall i, d | 0 <= i < |c.order| && c.order[i] in c.g && d in c.g[c.order[i]]
      ensures d in c.order[..i]
    {
      assert i == 1 && c.order[..1] == [0];
    }
  }

  ghost predicate Reachable(c: Config, n: nat, s: Pool)
    requires PoolInv(c, Initial(c, n))
  {
    exists events :: Run(c, Initial(c, n), events) == s
  }

  lemma ReachMore(c: Config, n: nat, s: Pool, w: nat, s': Pool)
    requires PoolInv(c, Initial(c, n)) && Reachable(c, n, s) && Readable(c, s) && Apply(c, s, Turn(w)) == Some(s')
    ensures Reachable(c, n, s')
  {
    hide PoolInv, Apply;
    var events :| Run(c, Initial(c, n), events) == s;
    RunMore(c, Initial(c, n), events, Turn(w));
  }

  /** The race: two workers, and the states of the two rules before and after the first is built. */
  function Race(rules: seq<Key>, first: Status, a: Worker, b: Worker, started: seq<Key>): Pool {
    Pool(rules, map[0 := first, 1 := Default], [a, b], started)
  }

  lemma RaceReadable(s: Pool)
    requires s.rules == [0, 1] || s.rules == [1]
    requires s.state.Keys == {0, 1} && (forall p :: p in s.workers && p.Scan? ==> p.i <= |s.rules|)
    ensures Readable(TwoRules(), s)
  {
    assert TwoRules().g[1] == [0];
  }

  /** A step of worker `w` that leads to the next state of the race. */
  lemma RaceStep(s: Pool, w: nat, s': Pool)
    requires PoolInv(TwoRules(), Initial(TwoRules(), 2)) && Reachable(TwoRules(), 2, s)
    requires Readable(TwoRules(), s) && w < |s.workers| && Next(TwoRules(), s, w) == Some(s')
    ensures Reachable(TwoRules(), 2, s')
  {
    hide PoolInv, Next, TwoRules, Initial;
    ReachMore(TwoRules(), 2, s, w, s');
  }

  lemma PairUpdate(a: Worker, b: Worker, p: Worker)
    ensures [a, b][0 := p] == [p, b] && [a, b][1 := p] == [a, p]
  {
  }

  lemma RaceStatus()
    ensures var c, state := TwoRules(), map[0 := Default, 1 := Default];
            && 0 in c.g && 1 in c.g && c.g[0] == [] && c.g[1] == [0]
            && RunStatus(c, state, 0) == RunImm && RunStatus(c, state, 1) == NotFinished
  {
    assert FirstNotValid(map[0 := Default, 1 := Default], [0]) == 0;
  }

  /** An idle worker starts a scan while the other one does not scan. */
  lemma RaceBegins(s: Pool, w: nat)
    requires Readable(TwoRules(), s) && w < |s.workers| && s.workers[w] == Idle && LockFree(s) && s.rules != []
    ensures Next(TwoRules(), s, w) == Some(s.(workers := s.workers[w := Scan(0)]))
  {
    hide TwoRules;
  }

  lemma FirstTakes()
    requires PoolInv(TwoRules(), Initial(TwoRules(), 2))
    ensures Reachable(TwoRules(), 2, Race([1], Default, Running(0), Idle, [0]))
  {
    hide PoolInv, Readable, Reachable, Run, TwoRules, Next, RunStatus;
    var s0, s1 := Race([0, 1], Default, Idle, Idle, []), Race([0, 1], Default, Scan(0), Idle, []);
    RaceReadable(s0);
    RaceReadable(s1);
    RaceStart();
    RaceBegins(s0, 0);
    PairUpdate(Idle, Idle, Scan(0));
    RaceStep(s0, 0, s1);
    RaceTakes(s1);
    RaceStep(s1, 0, Race([1], Default, Running(0), Idle, [0]));
  }

  lemma RaceStart()
    requires PoolInv(TwoRules(), Initial(TwoRules(), 2))
    ensures Reachable(TwoRules(), 2, Race([0, 1], Default, Idle, Idle, []))
  {
    hide PoolInv;
    assert Initial(TwoRules(), 2) == Race([0, 1], Default, Idle, Idle, []);
    RunNothing(TwoRules(), Initial(TwoRules(), 2));
  }

  lemma RaceTakes(s: Pool)
    requires s == Race([0, 1], Default, Scan(0), Idle, []) && Readable(TwoRules(), s)
    ensures Next(TwoRules(), s, 0) == Some(Race([1], Default, Running(0), Idle, [0]))
  {
    hide Readable, RunStatus, TwoRules;
    RaceStatus();
    PairUpdate(Scan(0), Idle, Running(0));
    assert Without([0, 1], 0) == [1] && [] + [0] == [0];
  }

  lemma SecondReads()
    requires PoolInv(TwoRules(), Initial(TwoRules(), 2))
    ensures Reachable(TwoRules(), 2, Race([1], Default, Running(0), Scan(1), [0]))
  {
    hide PoolInv, Readable, Reachable, Run, TwoRules, Next, RunStatus;
    FirstTakes();
    var s0, s1 := Race([1], Default, Running(0), Idle, [0]), Race([1], Default, Running(0), Scan(0), [0]);
    RaceReadable(s0);
    RaceReadable(s1);
    RaceBegins(s0, 1);
    PairUpdate(Running(0), Idle, Scan(0));
    RaceStep(s0, 1, s1);
    RaceReads(s1);
    RaceStep(s1, 1, Race([1], Default, Running(0), Scan(1), [0]));
  }

  lemma RaceReads(s: Pool)
    requires s == Race([1], Default, Running(0), Scan(0), [0]) && Readable(TwoRules(), s)
    ensures Next(TwoRules(), s, 1) == Some(Race([1], Default, Running(0), Scan(1), [0]))
  {
    hide Readable, RunStatus, TwoRules;
    RaceStatus();
    PairUpdate(Running(0), Scan(0), Scan(1));
  }

  lemma FirstBroadcasts()
    requires PoolInv(TwoRules(), Initial(TwoRules(), 2))
    ensures Reachable(TwoRules(), 2, Race([1], Valid, Idle, Scan(1), [0]))
  {
    hide PoolInv, Readable, Reachable, Run, Next, RunStatus;
    SecondReads();
    var s0, s1 := Race([1], Default, Running(0), Scan(1), [0]), Race([1], Default, Finish(0, Valid), Scan(1), [0]);
    RaceReadable(s0);
    RaceReadable(s1);
    RaceFinishes(s0, s1);
    RaceStep(s0, 0, s1);
    RaceStep(s1, 0, Race([1], Valid, Idle, Scan(1), [0]));
  }

  lemma RaceFinishes(s0: Pool, s1: Pool)
    requires s0 == Race([1], Default, Running(0), Scan(1), [0])
    requires s1 == Race([1], Default, Finish(0, Valid), Scan(1), [0])
    requires Readable(TwoRules(), s0) && Readable(TwoRules(), s1)
    ensures Next(TwoRules(), s0, 0) == Some(s1)
    ensures Next(TwoRules(), s1, 0) == Some(Race([1], Valid, Idle, Scan(1), [0]))
  {
    hide Readable, RunStatus, WakeAll;
    PairUpdate(Running(0), Scan(1), Finish(0, Valid));
    assert WakeAll(s1.workers) == s1.workers;
    PairUpdate(Finish(0, Valid), Scan(1), Idle);
    assert s1.state[0 := Valid] == map[0 := Valid, 1 := Default];
  }

  /**
    A broadcast can be missed: of two workers, the second has read that the last pending rule is not ready when the
    first broadcasts that its dependency is, and only then goes to sleep.
   */
  lemma BroadcastCanBeMissed()
    ensures PoolInv(TwoRules(), Initial(TwoRules(), 2))
    ensures Reachable(TwoRules(), 2, Race([1], Valid, Idle, Sleeping, [0]))
  {
    hide PoolInv, Readable, Reachable, Run, TwoRules, RunStatus;
    TwoRulesOk();
    InitialOk(TwoRules(), 2);
    FirstBroadcasts();
    var s := Race([1], Valid, Idle, Scan(1), [0]);
    RaceReadable(s);
    PairUpdate(Idle, Scan(1), Sleeping);
    RaceStep(s, 1, Race([1], Valid, Idle, Sleeping, [0]));
  }

  lemma RunNothing(c: Config, s: Pool)
    requires PoolInv(c, s)
    ensures Run(c, s, []) == s
    ensures |s.workers| == 2 && s == Initial(c, 2) ==> Reachable(c, 2, s)
  {
  }
}

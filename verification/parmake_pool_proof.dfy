/** The pool of parmake.c under every schedule: safety, agreement with the sequential build, and termination. */
module WorkerPoolProof {
  import opened RuleGraph
  import opened WorkerPool
  import opened Wrappers

  // ---- what run_status finds ----

  lemma StateMeans(c: Config, s: Pool, d: Key)
    requires ConfigOk(c) && RulesOk(c, s) && StatesOk(c, s) && d in c.order
    ensures s.state[d] != Default ==> s.state[d] == Meaning(c, d)
    ensures s.state[d] == Default ==> d in s.rules || Held(s, d)
  {
  }

  lemma StatusMeans(c: Config, s: Pool, i: nat)
    requires ConfigOk(c) && RulesOk(c, s) && StatesOk(c, s) && i < |s.rules|
    ensures var v := s.rules[i];
            && v in c.order && s.state[v] == Default
            && match RunStatus(c, s.state, v)
               case RunImm => ShouldRun(c, v) && (forall d :: d in c.g[v] ==> s.state[d] == Valid)
               case SatNoRun => !ShouldRun(c, v) && Meaning(c, v) == Valid
               case Err => !ShouldRun(c, v) && Meaning(c, v) == Invalid
               case NotFinished => exists d :: d in c.g[v] && s.state[d] == Default
               case AlreadyDone => false
  {
    var v := s.rules[i];
    assert v in s.rules;
    MeaningOfRun(c, v);
    forall d | d in c.g[v]
      ensures d in c.order && (s.state[d] != Default ==> s.state[d] == Meaning(c, d))
    {
      StateMeans(c, s, d);
    }
    hide RulesOk, StatesOk, Meaning;
    if c.g[v] != [] {
      var k := FirstNotValid(s.state, c.g[v]);
      if k < |c.g[v]| {
        assert c.g[v][k] in c.g[v];
      } else {
        forall d | d in c.g[v]
          ensures s.state[d] == Valid
        {
          var j :| 0 <= j < |c.g[v]| && c.g[v][j] == d;
        }
      }
    }
  }

  /** The first pending rule is only held up by a dependency that some worker is busy with. */
  lemma FirstWaitsForBusy(c: Config, s: Pool, w: nat)
    requires PoolInv(c, s) && w < |s.workers| && s.workers[w] == Scan(0)
    requires RunStatus(c, s.state, s.rules[0]) == NotFinished
    ensures SomeoneElseAwake(s, w)
  {
    StatusMeans(c, s, 0);
    var v := s.rules[0];
    var d :| d in c.g[v] && s.state[d] == Default;
    assert d !in s.rules[..0];
    StateMeans(c, s, d);
    var u :| 0 <= u < |s.workers| && Holds(s.workers[u], d);
    assert u != w && Awake(s.workers[u]);
  }

  // ---- steps that leave rules and states alone ----

  /** The same workers hold the same rules. */
  ghost predicate SameHolders(s: Pool, s': Pool) {
    && |s'.workers| == |s.workers|
    && (forall u :: 0 <= u < |s.workers| ==>
                      && (Busy(s.workers[u]) <==> Busy(s'.workers[u]))
                      && (Busy(s.workers[u]) ==> s'.workers[u].target == s.workers[u].target))
  }

  lemma SameHeld(s: Pool, s': Pool, v: Key)
    requires SameHolders(s, s')
    ensures Held(s', v) <==> Held(s, v)
  {
    if Held(s, v) {
      var u :| 0 <= u < |s.workers| && Holds(s.workers[u], v);
      assert Holds(s'.workers[u], v);
    }
    if Held(s', v) {
      var u :| 0 <= u < |s'.workers| && Holds(s'.workers[u], v);
      assert Holds(s.workers[u], v);
    }
  }

  lemma OnlyWorkersChange(c: Config, s: Pool, s': Pool)
    requires ConfigOk(c) && RulesOk(c, s) && StatesOk(c, s) && StartedOk(c, s) && SameHolders(s, s')
    requires s'.rules == s.rules && s'.state == s.state && s'.started == s.started
    requires forall u :: 0 <= u < |s'.workers| && s'.workers[u].Scan? ==> s'.workers[u].i <= |s.rules| && s.rules != []
    ensures RulesOk(c, s') && StatesOk(c, s') && StartedOk(c, s')
  {
    hide Meaning, ShouldRun, ConfigOk, Held, Holds;
    forall v: Key
      ensures Held(s', v) <==> Held(s, v)
    {
      SameHeld(s, s', v);
    }
  }

  /** A change of one worker that holds no rule before or after. */
  lemma LocalStep(c: Config, s: Pool, w: nat, p: Worker)
    requires ConfigOk(c) && RulesOk(c, s) && StatesOk(c, s) && WorkersOk(c, s) && StartedOk(c, s)
    requires w < |s.workers| && !Busy(s.workers[w]) && !Busy(p) && (p.Scan? ==> p.i <= |s.rules| && s.rules != [])
    ensures var s' := s.(workers := s.workers[w := p]);
            RulesOk(c, s') && StatesOk(c, s') && WorkersOk(c, s') && StartedOk(c, s')
  {
    hide Meaning, ShouldRun, ConfigOk, StatesOk, StartedOk;
    OnlyWorkersChange(c, s, s.(workers := s.workers[w := p]));
  }

  // ---- taking a rule ----

  lemma WithoutIs(rules: seq<Key>, i: nat)
    requires Distinct(rules) && i < |rules|
    ensures Distinct(Without(rules, i))
    ensures forall v :: v in Without(rules, i) <==> v in rules && v != rules[i]
  {
    var r := Without(rules, i);
    assert forall k :: 0 <= k < |r| ==> r[k] == rules[if k < i then k else k + 1];
    forall v | v in rules && v != rules[i]
      ensures v in r
    {
      var k :| 0 <= k < |rules| && rules[k] == v;
      assert r[if k < i then k else k - 1] == v;
    }
  }

  lemma WithoutPrefix(rules: seq<Key>, i: nat, k: nat, d: Key)
    requires Distinct(rules) && i < |rules| && k < |rules| - 1 && d != rules[i]
    requires d in rules[..if k < i then k else k + 1]
    ensures d in Without(rules, i)[..k]
  {
    var r, j := Without(rules, i), if k < i then k else k + 1;
    var m :| 0 <= m < j && rules[..j][m] == d;
    var x := if m < i then m else m - 1;
    assert r[..k][x] == d;
  }

  lemma WithoutOrdered(c: Config, s: Pool, i: nat)
    requires RulesOk(c, s) && i < |s.rules|
    ensures var r := Without(s.rules, i);
            forall k, d :: 0 <= k < |r| && d in c.g[r[k]] && d in r ==> d in r[..k]
  {
    var r := Without(s.rules, i);
    WithoutIs(s.rules, i);
    forall k, d | 0 <= k < |r| && d in c.g[r[k]] && d in r
      ensures d in r[..k]
    {
      var j := if k < i then k else k + 1;
      assert r[k] == s.rules[j];
      WithoutPrefix(s.rules, i, k, d);
    }
  }

  lemma TakenHeld(s: Pool, s': Pool, w: nat, p: Worker, x: Key)
    requires w < |s.workers| && !Busy(s.workers[w]) && Busy(p) && s'.workers == s.workers[w := p]
    ensures Held(s', x) <==> Held(s, x) || x == p.target
  {
    if Held(s, x) {
      var u :| 0 <= u < |s.workers| && Holds(s.workers[u], x);
      assert Holds(s'.workers[u], x);
    }
    assert Holds(s'.workers[w], p.target);
    if Held(s', x) && x != p.target {
      var u :| 0 <= u < |s'.workers| && Holds(s'.workers[u], x);
      assert Holds(s.workers[u], x);
    }
  }

  /** Taking rule `i`: it leaves the list and is held by the worker. */
  lemma TakeStep(c: Config, s: Pool, w: nat, p: Worker, started: seq<Key>)
    requires ConfigOk(c) && RulesOk(c, s) && StatesOk(c, s) && WorkersOk(c, s) && StartedOk(c, s) && LockOk(s)
    requires w < |s.workers| && s.workers[w].Scan? && s.workers[w].i < |s.rules| && Busy(p)
    requires var v := s.rules[s.workers[w].i];
             && p.target == v
             && (p.Running? ==> ShouldRun(c, v) && started == s.started + [v])
             && (p.Finish? ==> !ShouldRun(c, v) && p.st == Meaning(c, v) && started == s.started)
    ensures var s' := Pool(Without(s.rules, s.workers[w].i), s.state, s.workers[w := p], started);
            RulesOk(c, s') && StatesOk(c, s') && WorkersOk(c, s') && StartedOk(c, s')
  {
    var i := s.workers[w].i;
    var v := s.rules[i];
    var s' := Pool(Without(s.rules, i), s.state, s.workers[w := p], started);
    assert v in s.rules;
    TakenWorkers(c, s, w, p);
    TakenRules(c, s, s', w, i);
    hide Meaning, ShouldRun, ConfigOk, Without, WorkersOk, RulesOk, StatesOk, StartedOk;
    TakenStates(c, s, s', w, p, v);
    TakenStarted(c, s, s', v);
    WorkersOnly(c, s.(workers := s.workers[w := p]), s');
  }

  lemma TakenRules(c: Config, s: Pool, s': Pool, w: nat, i: nat)
    requires RulesOk(c, s) && i < |s.rules| && s'.rules == Without(s.rules, i) && s'.state == s.state && LockOk(s)
    requires w < |s.workers| && s.workers[w].Scan? && |s'.workers| == |s.workers| && !s'.workers[w].Scan?
    requires forall u :: 0 <= u < |s.workers| && u != w ==> s'.workers[u] == s.workers[u]
    ensures RulesOk(c, s') && (forall v :: v in s'.rules <==> v in s.rules && v != s.rules[i])
  {
    WithoutIs(s.rules, i);
    WithoutOrdered(c, s, i);
    hide Without;
  }

  lemma TakenStates(c: Config, s: Pool, s': Pool, w: nat, p: Worker, v: Key)
    requires ConfigOk(c) && RulesOk(c, s) && RulesOk(c, s') && StatesOk(c, s) && v in s.rules && s'.state == s.state
    requires forall x :: x in s'.rules <==> x in s.rules && x != v
    requires w < |s.workers| && !Busy(s.workers[w]) && Busy(p) && p.target == v && s'.workers == s.workers[w := p]
    ensures StatesOk(c, s')
  {
    hide Meaning, ShouldRun, ConfigOk, Held, RulesOk;
    ReadableRules(c, s);
    forall x: Key
      ensures Held(s', x) <==> Held(s, x) || x == v
    {
      TakenHeld(s, s', w, p, x);
    }
  }

  lemma ReadableRules(c: Config, s: Pool)
    requires RulesOk(c, s)
    ensures forall v :: v in c.order <==> v in s.state
    ensures forall v :: v in s.rules ==> v in c.order
  {
  }

  lemma TakenStarted(c: Config, s: Pool, s': Pool, v: Key)
    requires ConfigOk(c) && StartedOk(c, s) && v in s.rules && v in c.order
    requires forall x :: x in s'.rules <==> x in s.rules && x != v
    requires s'.started == if ShouldRun(c, v) then s.started + [v] else s.started
    ensures StartedOk(c, s')
  {
    hide Meaning, ShouldRun, ConfigOk;
  }

  lemma WorkersOnly(c: Config, s: Pool, s': Pool)
    requires ConfigOk(c) && WorkersOk(c, s) && s'.workers == s.workers
    ensures WorkersOk(c, s')
  {
  }

  lemma TakenWorkers(c: Config, s: Pool, w: nat, p: Worker)
    requires ConfigOk(c) && RulesOk(c, s) && StatesOk(c, s) && WorkersOk(c, s)
    requires w < |s.workers| && s.workers[w].Scan? && s.workers[w].i < |s.rules| && Busy(p)
    requires p.target == s.rules[s.workers[w].i]
    requires p.target in c.order && (p.Running? ==> ShouldRun(c, p.target))
    requires p.Finish? ==> p.st == Meaning(c, p.target)
    ensures WorkersOk(c, s.(workers := s.workers[w := p]))
  {
    hide Meaning, ShouldRun, ConfigOk;
    assert p.target in s.rules;
    forall u | 0 <= u < |s.workers| && Busy(s.workers[u])
      ensures s.workers[u].target != p.target
    {
      assert Holds(s.workers[u], s.workers[u].target);
    }
  }

  // ---- running and finishing ----

  lemma RunStep(c: Config, s: Pool, w: nat)
    requires ConfigOk(c) && RulesOk(c, s) && StatesOk(c, s) && WorkersOk(c, s) && StartedOk(c, s)
    requires w < |s.workers| && s.workers[w].Running?
    ensures var t := s.workers[w].target;
            var s' := s.(workers := s.workers[w := Finish(t, if t in c.succeeds then Valid else Invalid)]);
            RulesOk(c, s') && StatesOk(c, s') && WorkersOk(c, s') && StartedOk(c, s')
  {
    var t := s.workers[w].target;
    MeaningOfRun(c, t);
    hide Meaning, ShouldRun, ConfigOk, StatesOk, StartedOk;
    OnlyWorkersChange(c, s, s.(workers := s.workers[w := Finish(t, if t in c.succeeds then Valid else Invalid)]));
  }

  lemma FinishedHeld(c: Config, s: Pool, s': Pool, w: nat, v: Key)
    requires ConfigOk(c) && WorkersOk(c, s) && w < |s.workers| && s.workers[w].Finish?
    requires s'.workers == WakeAll(s.workers)[w := Idle]
    ensures Held(s', v) <==> Held(s, v) && v != s.workers[w].target
    ensures Held(s, s.workers[w].target)
  {
    hide Meaning, ShouldRun, ConfigOk, WakeAll;
    assert Holds(s.workers[w], s.workers[w].target);
    if Held(s, v) && v != s.workers[w].target {
      var u :| 0 <= u < |s.workers| && Holds(s.workers[u], v);
      assert Holds(s'.workers[u], v);
    }
    if Held(s', v) {
      var u :| 0 <= u < |s'.workers| && Holds(s'.workers[u], v);
      assert u != w && Holds(s.workers[u], v);
    }
  }

  lemma FinishStep(c: Config, s: Pool, w: nat)
    requires ConfigOk(c) && RulesOk(c, s) && StatesOk(c, s) && WorkersOk(c, s) && StartedOk(c, s)
    requires w < |s.workers| && s.workers[w].Finish?
    ensures var p := s.workers[w];
            var s' := Pool(s.rules, s.state[p.target := p.st], WakeAll(s.workers)[w := Idle], s.started);
            RulesOk(c, s') && StatesOk(c, s') && WorkersOk(c, s') && StartedOk(c, s')
  {
    var p := s.workers[w];
    var s' := Pool(s.rules, s.state[p.target := p.st], WakeAll(s.workers)[w := Idle], s.started);
    FinishedWorkers(c, s, w);
    hide Meaning, ShouldRun, ConfigOk, WakeAll, StatesOk, StartedOk;
    assert Holds(s.workers[w], p.target);
    assert RulesOk(c, s');
    FinishedStates(c, s, s', w);
    assert StartedOk(c, s') by { StartedOnly(c, s, s'); }
    WorkersOnly(c, s.(workers := WakeAll(s.workers)[w := Idle]), s');
  }

  lemma StartedOnly(c: Config, s: Pool, s': Pool)
    requires ConfigOk(c) && StartedOk(c, s) && s'.rules == s.rules && s'.started == s.started
    ensures StartedOk(c, s')
  {
  }

  lemma FinishedStates(c: Config, s: Pool, s': Pool, w: nat)
    requires ConfigOk(c) && RulesOk(c, s) && RulesOk(c, s') && StatesOk(c, s) && WorkersOk(c, s)
    requires w < |s.workers| && s.workers[w].Finish? && s'.workers == WakeAll(s.workers)[w := Idle]
    requires s'.rules == s.rules && s'.state == s.state[s.workers[w].target := s.workers[w].st]
    ensures StatesOk(c, s')
  {
    assert Holds(s.workers[w], s.workers[w].target);
    hide Meaning, ShouldRun, ConfigOk, WakeAll, Held, RulesOk;
    ReadableRules(c, s);
    forall v: Key
      ensures Held(s', v) <==> Held(s, v) && v != s.workers[w].target
    {
      FinishedHeld(c, s, s', w, v);
    }
  }

  lemma FinishedWorkers(c: Config, s: Pool, w: nat)
    requires ConfigOk(c) && WorkersOk(c, s) && w < |s.workers| && s.workers[w].Finish?
    ensures WorkersOk(c, s.(workers := WakeAll(s.workers)[w := Idle]))
  {
    hide Meaning, ShouldRun, ConfigOk, WakeAll;
    var r := WakeAll(s.workers)[w := Idle];
    assert forall u :: 0 <= u < |r| && Busy(r[u]) ==> u != w && r[u] == s.workers[u];
  }

  // ---- the lock and the wakeups ----

  /** A worker that is awake or asleep, but not scanning, becomes awake (or stays so). */
  lemma WakeOne(s: Pool, w: nat, p: Worker)
    requires LockOk(s) && ProgressOk(s) && w < |s.workers| && !s.workers[w].Scan? && Awake(p)
    requires Busy(s.workers[w]) ==> Busy(p)
    ensures var s' := s.(workers := s.workers[w := p]); LockOk(s') && ProgressOk(s')
  {
    var s' := s.(workers := s.workers[w := p]);
    assert Awake(s'.workers[w]);
    forall u | 0 <= u < |s'.workers| && s'.workers[u].Scan? && s'.workers[u].i > 0
      ensures SomeoneElseAwake(s', u)
    {
      assert u != w && Awake(s'.workers[w]);
    }
    if s.rules == [] && (exists u :: 0 <= u < |s'.workers| && s'.workers[u].Sleeping?) {
      var u :| 0 <= u < |s'.workers| && s'.workers[u].Sleeping?;
      assert s.workers[u].Sleeping?;
      var b :| 0 <= b < |s.workers| && Busy(s.workers[b]);
      assert Busy(s'.workers[b]);
    }
  }

  /** An idle worker takes the lock, or exits when nothing is pending. */
  lemma BeginStep(s: Pool, w: nat)
    requires LockOk(s) && ProgressOk(s) && w < |s.workers| && s.workers[w].Idle? && LockFree(s)
    ensures var s' := s.(workers := s.workers[w := if s.rules == [] then Exited else Scan(0)]);
            LockOk(s') && ProgressOk(s')
  {
    var s' := s.(workers := s.workers[w := if s.rules == [] then Exited else Scan(0)]);
    if s.rules == [] {
      if exists u :: 0 <= u < |s'.workers| && s'.workers[u].Sleeping? {
        var u :| 0 <= u < |s'.workers| && s'.workers[u].Sleeping?;
        assert s.workers[u].Sleeping?;
        var b :| 0 <= b < |s.workers| && Busy(s.workers[b]);
        assert Busy(s'.workers[b]);
      }
    } else {
      assert s'.workers[w].Scan?;
    }
  }

  /** The scan goes on, or the scanner goes to sleep: someone else is awake, though perhaps no longer busy. */
  lemma WaitStep(s: Pool, w: nat, p: Worker)
    requires LockOk(s) && ProgressOk(s) && w < |s.workers| && s.workers[w].Scan? && s.rules != []
    requires SomeoneElseAwake(s, w) && (p.Scan? || p.Sleeping?)
    ensures var s' := s.(workers := s.workers[w := p]); LockOk(s') && ProgressOk(s')
  {
    var s' := s.(workers := s.workers[w := p]);
    var v :| 0 <= v < |s.workers| && v != w && Awake(s.workers[v]);
    assert Awake(s'.workers[v]);
  }

  /** The scanner takes a rule and gives up the lock. */
  lemma TakeLock(s: Pool, w: nat, p: Worker, rules: seq<Key>, started: seq<Key>)
    requires LockOk(s) && ProgressOk(s) && w < |s.workers| && s.workers[w].Scan? && s.rules != [] && Busy(p)
    ensures var s' := Pool(rules, s.state, s.workers[w := p], started); LockOk(s') && ProgressOk(s')
  {
    var s' := Pool(rules, s.state, s.workers[w := p], started);
    assert Busy(s'.workers[w]) && Awake(s'.workers[w]);
  }

  /** The broadcast: everybody asleep wakes up. */
  lemma BroadcastStep(s: Pool, w: nat, state: map<Key, Status>)
    requires LockOk(s) && ProgressOk(s) && w < |s.workers| && s.workers[w].Finish?
    ensures var s' := Pool(s.rules, state, WakeAll(s.workers)[w := Idle], s.started); LockOk(s') && ProgressOk(s')
  {
    hide WakeAll;
    var s' := Pool(s.rules, state, WakeAll(s.workers)[w := Idle], s.started);
    assert Awake(s'.workers[w]);
    forall u | 0 <= u < |s'.workers| && s'.workers[u].Scan? && s'.workers[u].i > 0
      ensures SomeoneElseAwake(s', u)
    {
      assert u != w && Awake(s'.workers[w]);
    }
  }

  // ---- every step, every run ----

  lemma ScanKeepsInv(c: Config, s: Pool, w: nat)
    requires PoolInv(c, s) && w < |s.workers| && s.workers[w].Scan?
    ensures PoolInv(c, ScanStep(c, s, w))
  {
    hide RulesOk, StatesOk, WorkersOk, StartedOk, LockOk, ProgressOk, Meaning, ShouldRun, ConfigOk, Without, RunStatus;
    ScanReads(c, s, w);
    var i := s.workers[w].i;
    if i == |s.rules| {
      ScannerNotAlone(s, w);
      LocalStep(c, s, w, Sleeping);
      WaitStep(s, w, Sleeping);
      return;
    }
    StatusMeans(c, s, i);
    var v := s.rules[i];
    var s' := ScanStep(c, s, w);
    match RunStatus(c, s.state, v) {
      case RunImm =>
        TakeStep(c, s, w, Running(v), s.started + [v]);
        TakeLock(s, w, Running(v), s'.rules, s'.started);
      case SatNoRun =>
        TakeStep(c, s, w, Finish(v, Valid), s.started);
        TakeLock(s, w, Finish(v, Valid), s'.rules, s'.started);
      case Err =>
        TakeStep(c, s, w, Finish(v, Invalid), s.started);
        TakeLock(s, w, Finish(v, Invalid), s'.rules, s'.started);
      case NotFinished =>
        if i == 0 {
          FirstWaitsForBusy(c, s, w);
        } else {
          ScannerNotAlone(s, w);
        }
        LocalStep(c, s, w, Scan(i + 1));
        WaitStep(s, w, Scan(i + 1));
      case AlreadyDone =>
    }
  }

  lemma ScanReads(c: Config, s: Pool, w: nat)
    requires PoolInv(c, s) && w < |s.workers| && s.workers[w].Scan?
    ensures Readable(c, s) && s.workers[w].i <= |s.rules| && s.rules != []
  {
  }

  lemma ScannerNotAlone(s: Pool, w: nat)
    requires LockOk(s) && w < |s.workers| && s.workers[w].Scan? && s.workers[w].i > 0
    ensures SomeoneElseAwake(s, w)
  {
  }

  /** Every step of every thread, and every spurious wakeup, keeps the invariant. */
  lemma ApplyKeepsInv(c: Config, s: Pool, e: Event)
    requires PoolInv(c, s) && Apply(c, s, e).Some?
    ensures PoolInv(c, Apply(c, s, e).value) && |Apply(c, s, e).value.workers| == |s.workers|
  {
    hide RulesOk, StatesOk, WorkersOk, StartedOk, LockOk, ProgressOk, Meaning, ShouldRun, ConfigOk, ScanStep;
    var w := e.w;
    if e.Spurious? {
      LocalStep(c, s, w, Woken);
      WakeOne(s, w, Woken);
    } else {
      match s.workers[w] {
        case Idle =>
          LocalStep(c, s, w, if s.rules == [] then Exited else Scan(0));
          BeginStep(s, w);
        case Scan(_) =>
          PoolReads(c, s);
          ScanKeepsInv(c, s, w);
          ScanKeepsWorkers(c, s, w);
        case Running(t) =>
          RunStep(c, s, w);
          WakeOne(s, w, Finish(t, if t in c.succeeds then Valid else Invalid));
        case Finish(t, st) =>
          FinishStep(c, s, w);
          BroadcastStep(s, w, s.state[t := st]);
        case Woken =>
          LocalStep(c, s, w, Idle);
          WakeOne(s, w, Idle);
        case Sleeping =>
        case Exited =>
      }
    }
  }

  lemma ScanKeepsWorkers(c: Config, s: Pool, w: nat)
    requires Readable(c, s) && w < |s.workers| && s.workers[w].Scan?
    ensures |ScanStep(c, s, w).workers| == |s.workers|
  {
  }

  /** The commands of a rule are only started when every dependency has succeeded. */
  lemma StartsWhenDepsValid(c: Config, s: Pool, w: nat)
    requires PoolInv(c, s) && Apply(c, s, Turn(w)).Some? && Apply(c, s, Turn(w)).value.started != s.started
    ensures var s' := Apply(c, s, Turn(w)).value;
            && s.workers[w].Scan? && s.workers[w].i < |s.rules|
            && var v := s.rules[s.workers[w].i];
               && s'.started == s.started + [v] && v !in s.started
               && v in c.g && (forall d :: d in c.g[v] ==> d in s.state && s.state[d] == Valid)
  {
    if s.workers[w].Scan? && s.workers[w].i < |s.rules| {
      StatusMeans(c, s, s.workers[w].i);
      assert s.rules[s.workers[w].i] in s.rules;
    }
  }

  /** The states after each prefix of a schedule; events that are not enabled are skipped. */
  function Run(c: Config, s: Pool, events: seq<Event>): (s': Pool)
    requires PoolInv(c, s)
    ensures PoolInv(c, s') && |s'.workers| == |s.workers|
    decreases |events|
  {
    if events == [] then s else
    match Apply(c, s, events[0])
    case None => Run(c, s, events[1..])
    case Some(s1) => ApplyKeepsInv(c, s, events[0]); Run(c, s1, events[1..])
  }

  // ---- no deadlock ----

  ghost predicate AllExited(s: Pool) {
    forall w :: 0 <= w < |s.workers| ==> s.workers[w].Exited?
  }

  /** Unless every thread has exited, some thread can take a step: no lost wakeup leaves all of them asleep. */
  lemma SomeThreadCanStep(c: Config, s: Pool)
    requires PoolInv(c, s) && !AllExited(s)
    ensures Readable(c, s) && exists w :: 0 <= w < |s.workers| && Apply(c, s, Turn(w)).Some?
  {
    hide RulesOk, StatesOk, WorkersOk, StartedOk, ConfigOk, ScanStep;
    PoolReads(c, s);
    if !LockFree(s) {
      var w :| 0 <= w < |s.workers| && s.workers[w].Scan?;
      assert Apply(c, s, Turn(w)).Some?;
    } else if s.rules != [] {
      var w :| 0 <= w < |s.workers| && (Awake(s.workers[w]) || s.workers[w].Scan?);
      assert Apply(c, s, Turn(w)).Some?;
    } else {
      var u :| 0 <= u < |s.workers| && !s.workers[u].Exited?;
      if s.workers[u].Sleeping? {
        var w :| 0 <= w < |s.workers| && Busy(s.workers[w]);
        assert Apply(c, s, Turn(w)).Some?;
      } else {
        assert Apply(c, s, Turn(u)).Some?;
      }
    }
  }

  lemma PoolReads(c: Config, s: Pool)
    requires PoolInv(c, s)
    ensures Readable(c, s)
  {
  }

  /**
    When all threads have exited, the build is the sequential one: every state, and the set of rules whose commands
    ran.
   */
  lemma FinalIsSequential(c: Config, s: Pool)
    requires PoolInv(c, s) && AllExited(s)
    ensures s.rules == []
    ensures forall v :: v in c.order ==> s.state[v] == Meaning(c, v)
    ensures Distinct(s.started) && (forall v :: v in s.started <==> v in c.order && ShouldRun(c, v))
  {
    assert s.workers[0].Exited?;
    assert forall v, u :: 0 <= u < |s.workers| ==> !Holds(s.workers[u], v);
  }

  /** A rule as it is when all threads have exited, told by the states of its dependencies alone. */
  ghost predicate Settled(c: Config, s: Pool, v: Key) {
    && v in c.g && v in s.state && (forall d :: d in c.g[v] ==> d in s.state)
    && var isFile := c.g[v] == [] && v in c.files;
       && (v in s.started <==> !isFile && forall d :: d in c.g[v] ==> s.state[d] == Valid)
       && s.state[v] == if isFile || (v in s.started && v in c.succeeds) then Valid else Invalid
  }

  /**
    In the end a rule was run exactly if it is no file without dependencies and all it depends on is valid, and it is
    valid exactly if it is such a file or was run and its commands succeeded.
   */
  lemma AllSettled(c: Config, s: Pool)
    requires PoolInv(c, s) && AllExited(s)
    ensures forall v :: v in c.order ==> Settled(c, s, v)
  {
    FinalIsSequential(c, s);
    ConfigHolds(c, s);
    hide PoolInv, AllExited, Distinct;
    forall v | v in c.order
      ensures Settled(c, s, v)
    {
      DepsRank(c, v);
      MeaningOfRun(c, v);
    }
  }

  lemma ConfigHolds(c: Config, s: Pool)
    requires PoolInv(c, s)
    ensures ConfigOk(c) && (forall v :: v in c.order ==> v in s.state)
  {
  }

  // ---- every run ends ----

  lemma {:induction false} DistinctLength(a: seq<Key>, b: seq<Key>)
    requires Distinct(a) && (forall v :: v in a ==> v in b)
    ensures |a| <= |b|
    decreases |a|
  {
    if a != [] {
      var last := a[|a| - 1];
      assert last in a;
      var k :| 0 <= k < |b| && b[k] == last;
      var rest := b[..k] + b[k + 1..];
      forall v | v in a[..|a| - 1]
        ensures v in rest
      {
        assert v in a && v != last;
        var j :| 0 <= j < |b| && b[j] == v;
        assert rest[if j < k then j else j - 1] == v;
      }
      DistinctLength(a[..|a| - 1], rest);
    }
  }

  /** The steps a worker can make before it blocks, counting generously. */
  function Cost(n: nat, p: Worker): nat {
    match p
    case Idle => n + 4
    case Scan(i) => if i <= n then n + 3 - i else 3
    case Running(_) => 2
    case Finish(_, _) => 1
    case Sleeping => 0
    case Woken => n + 5
    case Exited => 0
  }

  function Costs(n: nat, ws: seq<Worker>): nat {
    if ws == [] then 0 else Cost(n, ws[0]) + Costs(n, ws[1..])
  }

  lemma {:induction false} CostsUpdate(n: nat, ws: seq<Worker>, w: nat, p: Worker)
    requires w < |ws|
    ensures Costs(n, ws[w := p]) == Costs(n, ws) - Cost(n, ws[w]) + Cost(n, p)
  {
    hide Cost;
    if w == 0 {
      assert ws[w := p][1..] == ws[1..];
    } else {
      CostsUpdate(n, ws[1..], w - 1, p);
      assert ws[w := p][1..] == ws[1..][w - 1 := p];
    }
  }

  lemma {:induction false} WakingCosts(n: nat, ws: seq<Worker>)
    ensures Costs(n, WakeAll(ws)) <= Costs(n, ws) + |ws| * (n + 5)
  {
    if ws != [] {
      WakingCosts(n, ws[1..]);
      assert |ws| * (n + 5) == |ws[1..]| * (n + 5) + (n + 5);
    }
  }

  /** The rules that have no final state yet. */
  ghost function Unfinished(c: Config, s: Pool): set<Key> {
    set v | v in c.order && v in s.state && s.state[v] == Default
  }

  /** Every unfinished rule pays for waking everybody once. */
  ghost function Measure(c: Config, s: Pool): nat {
    |Unfinished(c, s)| * ((|s.workers| + 1) * (|c.order| + 5)) + Costs(|c.order|, s.workers)
  }

  lemma ScanBelow(c: Config, s: Pool, w: nat)
    requires RulesOk(c, s) && w < |s.workers| && s.workers[w].Scan?
    ensures s.workers[w].i <= |s.rules| <= |c.order|
  {
    DistinctLength(s.rules, c.order);
  }

  /** A step that changes no state but gets cheaper. */
  lemma CheaperStep(c: Config, s: Pool, s': Pool, w: nat, p: Worker)
    requires w < |s.workers| && s'.workers == s.workers[w := p] && s'.state == s.state
    requires Cost(|c.order|, p) < Cost(|c.order|, s.workers[w])
    ensures Measure(c, s') < Measure(c, s)
  {
    hide Cost;
    CostsUpdate(|c.order|, s.workers, w, p);
    assert Unfinished(c, s') == Unfinished(c, s);
  }

  lemma FinishPays(c: Config, s: Pool, w: nat)
    requires PoolInv(c, s) && w < |s.workers| && s.workers[w].Finish?
    ensures var p := s.workers[w];
            var s' := Pool(s.rules, s.state[p.target := p.st], WakeAll(s.workers)[w := Idle], s.started);
            Measure(c, s') < Measure(c, s)
  {
    hide PoolInv, WakeAll, Costs, Unfinished;
    var p := s.workers[w];
    var s' := Pool(s.rules, s.state[p.target := p.st], WakeAll(s.workers)[w := Idle], s.started);
    OneLess(c, s, w);
    FinishCosts(|c.order|, s.workers, w);
    Payment(|Unfinished(c, s)|, |s.workers|, |c.order| + 5, Costs(|c.order|, s'.workers), Costs(|c.order|, s.workers));
  }

  /** Waking everybody costs a worker's steps each. */
  lemma FinishCosts(n: nat, ws: seq<Worker>, w: nat)
    requires w < |ws|
    ensures Costs(n, WakeAll(ws)[w := Idle]) < Costs(n, ws) + |ws| * (n + 5) + (n + 5)
  {
    hide WakeAll, Costs;
    WakingCosts(n, ws);
    CostsUpdate(n, WakeAll(ws), w, Idle);
  }

  lemma OneLess(c: Config, s: Pool, w: nat)
    requires PoolInv(c, s) && w < |s.workers| && s.workers[w].Finish?
    ensures var p := s.workers[w];
            var s' := Pool(s.rules, s.state[p.target := p.st], WakeAll(s.workers)[w := Idle], s.started);
            |Unfinished(c, s')| == |Unfinished(c, s)| - 1
  {
    var p := s.workers[w];
    var s' := Pool(s.rules, s.state[p.target := p.st], WakeAll(s.workers)[w := Idle], s.started);
    assert Holds(s.workers[w], p.target);
    hide Meaning, ShouldRun, ConfigOk, WakeAll;
    assert p.target in Unfinished(c, s);
    assert p.st != Default;
    assert Unfinished(c, s') == Unfinished(c, s) - {p.target};
  }

  lemma Payment(u: nat, n: nat, k: nat, after: nat, before: nat)
    requires u > 0 && k > 0 && after < before + n * k + k
    ensures (u - 1) * ((n + 1) * k) + after < u * ((n + 1) * k) + before
  {
    var price := (n + 1) * k;
    assert price == n * k + k;
    assert (u - 1) * price == u * price - price;
  }

  /** Every step of a thread makes the measure smaller. */
  lemma TurnDecreases(c: Config, s: Pool, w: nat)
    requires PoolInv(c, s) && Apply(c, s, Turn(w)).Some?
    ensures Measure(c, Apply(c, s, Turn(w)).value) < Measure(c, s)
  {
    hide RulesOk, StatesOk, WorkersOk, StartedOk, LockOk, ProgressOk, Meaning, ShouldRun, ConfigOk, Measure;
    hide RunStatus, Without, WakeAll;
    PoolReads(c, s);
    var s' := Apply(c, s, Turn(w)).value;
    match s.workers[w] {
      case Idle => CheaperStep(c, s, s', w, s'.workers[w]);
      case Scan(i) =>
        ScanBelow(c, s, w);
        if i < |s.rules| {
          StatusMeans(c, s, i);
        }
        CheaperStep(c, s, s', w, s'.workers[w]);
      case Running(t) => CheaperStep(c, s, s', w, s'.workers[w]);
      case Finish(t, st) => FinishPays(c, s, w);
      case Woken => CheaperStep(c, s, s', w, Idle);
      case Sleeping =>
      case Exited =>
    }
  }

  /** A spurious wakeup costs the thread one more scan. */
  lemma SpuriousCosts(c: Config, s: Pool, w: nat)
    requires w < |s.workers| && s.workers[w].Sleeping?
    ensures Measure(c, s.(workers := s.workers[w := Woken])) == Measure(c, s) + |c.order| + 5
  {
    CostsUpdate(|c.order|, s.workers, w, Woken);
    hide Costs;
    assert Unfinished(c, s.(workers := s.workers[w := Woken])) == Unfinished(c, s);
  }

  /** A schedule of events none of which is skipped. */
  ghost predicate Schedule(c: Config, s: Pool, events: seq<Event>)
    requires PoolInv(c, s)
    decreases |events|
  {
    events == [] ||
    (Apply(c, s, events[0]).Some? &&
     (ApplyKeepsInv(c, s, events[0]); Schedule(c, Apply(c, s, events[0]).value, events[1..])))
  }

  /** Where a schedule leads. */
  ghost function After(c: Config, s: Pool, events: seq<Event>): (s': Pool)
    requires PoolInv(c, s) && Schedule(c, s, events)
    ensures PoolInv(c, s')
    decreases |events|
  {
    if events == [] then s else
    ApplyKeepsInv(c, s, events[0]);
    After(c, Apply(c, s, events[0]).value, events[1..])
  }

  /** The spurious wakeups of a schedule; all other events are steps of threads. */
  function Wakeups(events: seq<Event>): (k: nat)
    ensures k <= |events|
  {
    if events == [] then 0 else (if events[0].Spurious? then 1 else 0) + Wakeups(events[1..])
  }

  /** No schedule is longer than the measure of its first state and what its spurious wakeups cost. */
  lemma {:induction false} SchedulesEnd(c: Config, s: Pool, events: seq<Event>)
    requires PoolInv(c, s) && Schedule(c, s, events)
    ensures |events| + Measure(c, After(c, s, events)) <= Measure(c, s) + (|c.order| + 6) * Wakeups(events)
    decreases |events|
  {
    hide PoolInv, Measure, Next;
    PoolReads(c, s);
    if events != [] {
      ApplyKeepsInv(c, s, events[0]);
      if events[0].Turn? {
        TurnDecreases(c, s, events[0].w);
      } else {
        SpuriousCosts(c, s, events[0].w);
      }
      SchedulesEnd(c, Apply(c, s, events[0]).value, events[1..]);
      assert (|c.order| + 6) * Wakeups(events) ==
             (|c.order| + 6) * Wakeups(events[1..]) + if events[0].Spurious? then |c.order| + 6 else 0;
    }
  }

  /**
    The build of any number of threads under any schedule: between spurious wakeups it cannot go on for ever, and when
    no thread can take another step all have exited, every rule has the state a build with one thread gives it, and the
    commands of exactly the rules that build runs have been started, once each.
   */
  lemma ParallelBuildIsSequential(c: Config, n: nat, events: seq<Event>)
    requires ConfigOk(c) && n > 0
    ensures PoolInv(c, Initial(c, n))
    ensures Schedule(c, Initial(c, n), events) ==>
              var s, b := After(c, Initial(c, n), events), Sequential(c, |c.order|);
              && |events| <= Measure(c, Initial(c, n)) + (|c.order| + 6) * Wakeups(events)
              && ((forall w :: 0 <= w < |s.workers| ==> Apply(c, s, Turn(w)).None?) ==>
                    && AllExited(s) && s.rules == [] && s.state == b.state
                    && Distinct(s.started) && (forall v :: v in s.started <==> v in b.ran))
  {
    InitialOk(c, n);
    if Schedule(c, Initial(c, n), events) {
      hide Meaning, ShouldRun, Measure, Initial, ConfigOk, RulesOk, StatesOk, WorkersOk, StartedOk, LockOk, ProgressOk;
      hide Sequential, BuiltOk;
      SchedulesEnd(c, Initial(c, n), events);
      var s := After(c, Initial(c, n), events);
      PoolReads(c, s);
      if forall w :: 0 <= w < |s.workers| ==> Apply(c, s, Turn(w)).None? {
        if !AllExited(s) {
          SomeThreadCanStep(c, s);
        }
        FinishedIsBuilt(c, s);
      }
    }
  }

  lemma FinishedIsBuilt(c: Config, s: Pool)
    requires PoolInv(c, s) && AllExited(s)
    ensures var b := Sequential(c, |c.order|);
            && s.rules == [] && s.state == b.state
            && Distinct(s.started) && (forall v :: v in s.started <==> v in b.ran)
  {
    hide Meaning, ShouldRun, ConfigOk, Sequential, StatesOk, WorkersOk, StartedOk, LockOk, ProgressOk;
    FinalIsSequential(c, s);
    SequentialIsMeaning(c, |c.order|);
    assert c.order[..|c.order|] == c.order;
    assert s.state == Sequential(c, |c.order|).state;
  }
}

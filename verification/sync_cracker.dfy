/**
  The shutdown protocol of password_cracker/cracker1.c: all tasks and one NULL are pushed, each worker pulls until it
  gets NULL, pushes it back and stops. Steps are the critical sections of the queue and of the counters.
 */
module PasswordWorkers {
  import opened WorkQueue
  import opened Wrappers

  /**
    A worker: about to pull, asleep in the pull or woken there, cracking a task, about to push NULL back, or finished.
   */
  datatype Worker = Pulling | Asleep | Awakened | Cracking(id: nat) | Returning | Finished

  /** `tasks` numbers the lines of the input; `cracked` says which passwords the search finds. */
  datatype Job = Job(tasks: nat, cracked: set<nat>)

  datatype State = State(
    items: seq<Item>, workers: seq<Worker>, recovered: nat, failed: nat, taken: nat, handled: seq<nat>)

  function WakeWorkers(ws: seq<Worker>): (r: seq<Worker>)
    ensures |r| == |ws|
    ensures forall i :: 0 <= i < |ws| ==> r[i] == if ws[i] == Asleep then Awakened else ws[i]
  {
    if ws == [] then [] else [if ws[0] == Asleep then Awakened else ws[0]] + WakeWorkers(ws[1..])
  }

  /** `queue_pull` and the test of the outer loop. */
  function Pull(s: State, w: nat): State
    requires w < |s.workers|
  {
    if s.items == [] then s.(workers := s.workers[w := Asleep])
    else match s.items[0]
      case Null => s.(items := s.items[1..], workers := WakeWorkers(s.workers)[w := Returning])
      case Task(id) =>
        s.(items := s.items[1..], workers := WakeWorkers(s.workers)[w := Cracking(id)], taken := s.taken + 1)
  }

  /** The next step of a worker; None while it sleeps or once it has finished. */
  function Next(j: Job, s: State, w: nat): Option<State>
    requires w < |s.workers|
  {
    match s.workers[w]
    case Pulling => Some(Pull(s, w))
    case Awakened => Some(Pull(s, w))
    case Cracking(id) =>
      var workers, handled := s.workers[w := Pulling], s.handled + [id];
      Some(if id in j.cracked then s.(recovered := s.recovered + 1, workers := workers, handled := handled)
           else s.(failed := s.failed + 1, workers := workers, handled := handled))
    case Returning => Some(s.(items := s.items + [Null], workers := WakeWorkers(s.workers)[w := Finished]))
    case Asleep => None
    case Finished => None
  }

  datatype Event = Turn(w: nat) | Spurious(w: nat)

  /** What an event does: the next step of a worker, or a wakeup that nobody caused. */
  function Apply(j: Job, s: State, e: Event): Option<State> {
    if e.w >= |s.workers| then None
    else if e.Turn? then Next(j, s, e.w)
    else if s.workers[e.w] == Asleep then Some(s.(workers := s.workers[e.w := Awakened])) else None
  }

  /** The tasks from number `lo` on, as pushed by `start`. */
  function Tasks(lo: nat, hi: nat): (r: seq<Item>)
    requires lo <= hi
    ensures |r| == hi - lo && (forall i :: 0 <= i < |r| ==> r[i] == Task(lo + i))
    decreases hi - lo
  {
    if lo == hi then [] else [Task(lo)] + Tasks(lo + 1, hi)
  }

  function Initial(j: Job, threads: nat): State {
    State(Tasks(0, j.tasks) + [Null], seq(threads, _ => Pulling), 0, 0, 0, [])
  }

  ghost predicate SomeoneReturns(s: State) {
    exists w :: 0 <= w < |s.workers| && s.workers[w] == Returning
  }

  /**
    There is one NULL: behind the remaining tasks in the queue, or in the hands of one worker once all tasks are
    taken.
   */
  ghost predicate OneSentinel(j: Job, s: State) {
    && s.taken <= j.tasks
    && (forall w, v :: 0 <= w < v < |s.workers| ==> !(s.workers[w] == Returning && s.workers[v] == Returning))
    && (if SomeoneReturns(s) then s.items == [] && s.taken == j.tasks else s.items == Tasks(s.taken, j.tasks) + [Null])
    && (forall w :: 0 <= w < |s.workers| && s.workers[w] == Finished ==> s.taken == j.tasks)
  }

  /** The tasks a worker holds or has handled are the ones taken, each once. */
  ghost predicate EachOnce(j: Job, s: State) {
    && (forall w :: 0 <= w < |s.workers| && s.workers[w].Cracking? ==>
          s.workers[w].id < s.taken && s.workers[w].id !in s.handled)
    && (forall w, v :: 0 <= w < v < |s.workers| && s.workers[w].Cracking? && s.workers[v].Cracking? ==>
          s.workers[w].id != s.workers[v].id)
    && (forall i :: 0 <= i < |s.handled| ==> s.handled[i] < s.taken)
    && (forall i, k :: 0 <= i < k < |s.handled| ==> s.handled[i] != s.handled[k])
    && (forall id :: 0 <= id < s.taken ==> id in s.handled || Held(s, id))
  }

  ghost predicate Held(s: State, id: nat) {
    exists w :: 0 <= w < |s.workers| && s.workers[w] == Cracking(id)
  }

  function CountIn(ids: seq<nat>, good: set<nat>): (k: nat)
    ensures k <= |ids|
  {
    if ids == [] then 0 else CountIn(ids[..|ids| - 1], good) + if ids[|ids| - 1] in good then 1 else 0
  }

  /** The counters count the handled tasks by outcome. */
  ghost predicate Counted(j: Job, s: State) {
    s.recovered == CountIn(s.handled, j.cracked) && s.recovered + s.failed == |s.handled|
  }

  /** Nobody sleeps beside a filled queue. */
  ghost predicate SleepersRight(s: State) {
    forall w :: 0 <= w < |s.workers| && s.workers[w] == Asleep ==> s.items == []
  }

  ghost predicate Inv(j: Job, s: State) {
    OneSentinel(j, s) && EachOnce(j, s) && Counted(j, s) && SleepersRight(s)
  }

  lemma InitialOk(j: Job, threads: nat)
    ensures Inv(j, Initial(j, threads))
  {
  }

  // ---- steps ----

  lemma SleepKeepsInv(j: Job, s: State, w: nat)
    requires Inv(j, s) && w < |s.workers| && (s.workers[w] == Pulling || s.workers[w] == Awakened) && s.items == []
    ensures Inv(j, s.(workers := s.workers[w := Asleep]))
  {
    var s' := s.(workers := s.workers[w := Asleep]);
    SameHeld(s, s');
    var r :| 0 <= r < |s.workers| && s.workers[r] == Returning;
    assert s'.workers[r] == Returning;
  }

  /** The same workers crack the same tasks. */
  lemma SameHeld(s: State, s': State)
    requires |s'.workers| == |s.workers|
    requires forall w :: 0 <= w < |s.workers| ==>
               && (s.workers[w].Cracking? <==> s'.workers[w].Cracking?)
               && (s.workers[w].Cracking? ==> s'.workers[w] == s.workers[w])
    ensures forall id :: Held(s', id) <==> Held(s, id)
  {
    forall id: nat
      ensures Held(s', id) <==> Held(s, id)
    {
      if Held(s, id) {
        var w :| 0 <= w < |s.workers| && s.workers[w] == Cracking(id);
        assert s'.workers[w] == Cracking(id);
      }
      if Held(s', id) {
        var w :| 0 <= w < |s'.workers| && s'.workers[w] == Cracking(id);
        assert s.workers[w] == Cracking(id);
      }
    }
  }

  /** Taking the sentinel: all tasks were taken before. */
  lemma TakeNullKeepsInv(j: Job, s: State, w: nat)
    requires Inv(j, s) && w < |s.workers| && (s.workers[w] == Pulling || s.workers[w] == Awakened) &&
            s.items != [] && s.items[0] == Null
    ensures Inv(j, Pull(s, w)) && s.items == [Null] && s.taken == j.tasks
  {
    hide WakeWorkers;
    var s' := Pull(s, w);
    assert s'.workers[w] == Returning;
    SameHeld(s, s');
  }

  lemma TakeTaskKeepsInv(j: Job, s: State, w: nat)
    requires Inv(j, s) && w < |s.workers| && (s.workers[w] == Pulling || s.workers[w] == Awakened) &&
            s.items != [] && s.items[0].Task?
    ensures Inv(j, Pull(s, w)) && s.items[0].id == s.taken < j.tasks
  {
    hide WakeWorkers;
    var s' := Pull(s, w);
    assert Tasks(s.taken, j.tasks) != [];
    assert s'.items == Tasks(s'.taken, j.tasks) + [Null];
    assert s'.workers[w] == Cracking(s.taken);
    forall id | 0 <= id < s'.taken
      ensures id in s'.handled || Held(s', id)
    {
      if id < s.taken && Held(s, id) {
        var u :| 0 <= u < |s.workers| && s.workers[u] == Cracking(id);
        assert s'.workers[u] == Cracking(id);
      }
    }
    assert forall r :: 0 <= r < |s.workers| && s'.workers[r] == Returning ==> s.workers[r] == Returning;
  }

  lemma HandleKeepsInv(j: Job, s: State, w: nat)
    requires Inv(j, s) && w < |s.workers| && s.workers[w].Cracking?
    ensures Inv(j, Next(j, s, w).value)
  {
    hide Tasks;
    var id := s.workers[w].id;
    var s' := Next(j, s, w).value;
    assert s'.handled == s.handled + [id] && s'.handled[..|s.handled|] == s.handled && s'.handled[|s.handled|] == id;
    assert forall r :: 0 <= r < |s.workers| && r != w ==> s'.workers[r] == s.workers[r];
    StillReturning(s, s', w);
    HandledOrHeld(s, s', w, id);
  }

  lemma StillReturning(s: State, s': State, w: nat)
    requires w < |s.workers| && s'.workers == s.workers[w := Pulling] && s.workers[w] != Returning
    ensures SomeoneReturns(s') <==> SomeoneReturns(s)
  {
    if SomeoneReturns(s) {
      var r :| 0 <= r < |s.workers| && s.workers[r] == Returning;
      assert s'.workers[r] == Returning;
    }
  }

  lemma HandledOrHeld(s: State, s': State, w: nat, id: nat)
    requires w < |s.workers| && s.workers[w] == Cracking(id) && s'.workers == s.workers[w := Pulling]
    requires s'.handled == s.handled + [id]
    requires forall k :: 0 <= k < s.taken ==> k in s.handled || Held(s, k)
    ensures forall k :: 0 <= k < s.taken ==> k in s'.handled || Held(s', k)
  {
    forall k: nat | k < s.taken
      ensures k in s'.handled || Held(s', k)
    {
      if k != id && Held(s, k) {
        var u :| 0 <= u < |s.workers| && s.workers[u] == Cracking(k);
        assert s'.workers[u] == Cracking(k);
      }
    }
  }

  /** NULL goes back to the queue for the next worker. */
  lemma ReturnKeepsInv(j: Job, s: State, w: nat)
    requires Inv(j, s) && w < |s.workers| && s.workers[w] == Returning
    ensures Inv(j, Next(j, s, w).value)
  {
    hide WakeWorkers;
    var s' := Next(j, s, w).value;
    SameHeld(s, s');
    assert Tasks(s.taken, j.tasks) == [];
    assert forall r :: 0 <= r < |s.workers| && s'.workers[r] == Returning ==> s.workers[r] == Returning && r != w;
  }

  lemma PullKeepsInv(j: Job, s: State, w: nat)
    requires Inv(j, s) && w < |s.workers| && (s.workers[w] == Pulling || s.workers[w] == Awakened)
    ensures Inv(j, Pull(s, w))
  {
    hide Inv, WakeWorkers;
    if s.items == [] {
      SleepKeepsInv(j, s, w);
    } else if s.items[0] == Null {
      TakeNullKeepsInv(j, s, w);
    } else {
      TakeTaskKeepsInv(j, s, w);
    }
  }

  lemma StepKeepsInv(j: Job, s: State, w: nat)
    requires Inv(j, s) && w < |s.workers| && Next(j, s, w).Some?
    ensures Inv(j, Next(j, s, w).value) && |Next(j, s, w).value.workers| == |s.workers|
  {
    StepKeepsSize(j, s, w);
    hide OneSentinel, EachOnce, Counted, SleepersRight, WakeWorkers;
    match s.workers[w] {
      case Cracking(_) => HandleKeepsInv(j, s, w);
      case Returning => ReturnKeepsInv(j, s, w);
      case Pulling => PullKeepsInv(j, s, w);
      case Awakened => PullKeepsInv(j, s, w);
      case Asleep =>
      case Finished =>
    }
  }

  lemma SpuriousKeepsInv(j: Job, s: State, w: nat)
    requires Inv(j, s) && w < |s.workers| && s.workers[w] == Asleep
    ensures Inv(j, s.(workers := s.workers[w := Awakened]))
  {
    var s' := s.(workers := s.workers[w := Awakened]);
    SameHeld(s, s');
    assert SomeoneReturns(s') <==> SomeoneReturns(s) by {
      assert forall v :: 0 <= v < |s.workers| ==> (s'.workers[v] == Returning <==> s.workers[v] == Returning);
    }
    hide SomeoneReturns, Held;
  }

  /** Every event keeps the invariant. */
  lemma ApplyKeepsInv(j: Job, s: State, e: Event)
    requires Inv(j, s) && Apply(j, s, e).Some?
    ensures Inv(j, Apply(j, s, e).value) && |Apply(j, s, e).value.workers| == |s.workers|
  {
    hide Inv, Next;
    if e.Turn? {
      StepKeepsInv(j, s, e.w);
    } else {
      SpuriousKeepsInv(j, s, e.w);
    }
  }

  lemma StepKeepsSize(j: Job, s: State, w: nat)
    requires w < |s.workers| && Next(j, s, w).Some?
    ensures |Next(j, s, w).value.workers| == |s.workers|
  {
    hide WakeWorkers;
  }

  // ---- no deadlock ----

  ghost predicate AllFinished(s: State) {
    forall w :: 0 <= w < |s.workers| ==> s.workers[w] == Finished
  }

  /** As long as a worker has not finished, some worker can take a step. */
  lemma SomeoneCanStep(j: Job, s: State)
    requires Inv(j, s) && !AllFinished(s)
    ensures exists w :: 0 <= w < |s.workers| && Next(j, s, w).Some?
  {
    var w :| 0 <= w < |s.workers| && s.workers[w] != Finished;
    if s.workers[w] == Asleep {
      var r :| 0 <= r < |s.workers| && s.workers[r] == Returning;
      assert Next(j, s, r).Some?;
    } else {
      assert Next(j, s, w).Some?;
    }
  }

  /** When all workers have finished, every task was handled once and counted. */
  lemma FinishedMeansHandled(j: Job, s: State)
    requires Inv(j, s) && AllFinished(s) && |s.workers| > 0
    ensures forall id :: 0 <= id < j.tasks <==> id in s.handled
    ensures forall i, k :: 0 <= i < k < |s.handled| ==> s.handled[i] != s.handled[k]
    ensures s.recovered + s.failed == j.tasks
    ensures s.recovered == |set id: nat | id < j.tasks && id in j.cracked|
  {
    assert s.workers[0] == Finished;
    forall id | 0 <= id < j.tasks
      ensures id in s.handled
    {
      assert !Held(s, id);
    }
    DistinctBelow(s.handled, j.tasks);
    CountInSet(s.handled, j.cracked);
    var found := set id: nat | id < j.tasks && id in j.cracked;
    assert found == Among(s.handled, j.cracked);
  }

  function Among(ids: seq<nat>, good: set<nat>): set<nat> {
    set id | id in good && id in ids
  }

  lemma AmongNext(ids: seq<nat>, good: set<nat>)
    requires ids != [] && ids[|ids| - 1] !in ids[..|ids| - 1]
    ensures var rest, last := ids[..|ids| - 1], ids[|ids| - 1];
            |Among(ids, good)| == |Among(rest, good)| + if last in good then 1 else 0
  {
    var rest, last := ids[..|ids| - 1], ids[|ids| - 1];
    assert ids == rest + [last];
    assert Among(ids, good) == Among(rest, good) + if last in good then {last} else {};
  }

  /** What `CountIn` counts, among distinct numbers. */
  lemma {:induction false} CountInSet(ids: seq<nat>, good: set<nat>)
    requires forall i, k :: 0 <= i < k < |ids| ==> ids[i] != ids[k]
    ensures CountIn(ids, good) == |Among(ids, good)|
  {
    hide Among;
    if ids == [] {
      NoneAmong(good);
    } else {
      CountInSet(ids[..|ids| - 1], good);
      AmongNext(ids, good);
    }
  }

  lemma NoneAmong(good: set<nat>)
    ensures Among([], good) == {}
  {
  }

  /** Distinct numbers below `n` that leave none out are `n` many. */
  lemma {:induction false} DistinctBelow(ids: seq<nat>, n: nat)
    requires forall id :: 0 <= id < n <==> id in ids
    requires forall i, k :: 0 <= i < k < |ids| ==> ids[i] != ids[k]
    ensures |ids| == n
    decreases n
  {
    if n == 0 {
      assert forall i :: 0 <= i < |ids| ==> ids[i] in ids;
    } else {
      assert n - 1 in ids;
      var i :| 0 <= i < |ids| && ids[i] == n - 1;
      var rest := ids[..i] + ids[i + 1..];
      forall id | 0 <= id < n - 1
        ensures id in rest
      {
        assert id in ids;
        var k :| 0 <= k < |ids| && ids[k] == id;
        assert rest[if k < i then k else k - 1] == id;
      }
      forall id | id in rest
        ensures 0 <= id < n - 1
      {
        var k :| 0 <= k < |rest| && rest[k] == id;
        assert ids[if k < i then k else k + 1] == id;
        assert id in ids;
      }
      DistinctBelow(rest, n - 1);
    }
  }

  // ---- every run ends ----

  /** What a worker still has to take from or put into the queue, besides tasks. */
  function Turns(p: Worker): nat {
    match p case Finished => 0 case Returning => 1 case _ => 2
  }

  function Cost(p: Worker): nat {
    match p
    case Pulling => 2
    case Awakened => 2
    case Cracking(_) => 3
    case _ => 0
  }

  function Sum(ws: seq<Worker>, f: Worker -> nat): nat {
    if ws == [] then 0 else f(ws[0]) + Sum(ws[1..], f)
  }

  lemma {:induction false} SumUpdate(ws: seq<Worker>, f: Worker -> nat, w: nat, p: Worker)
    requires w < |ws|
    ensures Sum(ws[w := p], f) == Sum(ws, f) - f(ws[w]) + f(p)
  {
    if w == 0 {
      assert ws[w := p][1..] == ws[1..];
    } else {
      SumUpdate(ws[1..], f, w - 1, p);
      assert ws[w := p][1..] == ws[1..][w - 1 := p];
    }
  }

  lemma {:induction false} WakeSums(ws: seq<Worker>)
    ensures Sum(WakeWorkers(ws), Turns) == Sum(ws, Turns)
    ensures Sum(WakeWorkers(ws), Cost) <= Sum(ws, Cost) + 2 * |ws|
  {
    if ws != [] {
      WakeSums(ws[1..]);
      assert WakeWorkers(ws)[1..] == WakeWorkers(ws[1..]);
    }
  }

  /** Each queue operation that is left pays for waking everybody. */
  function Measure(j: Job, s: State): int {
    (j.tasks - s.taken + Sum(s.workers, Turns)) * (2 * |s.workers| + 4) + Sum(s.workers, Cost)
  }

  lemma Cheaper(a: int, b: int, n: nat, before: int, after: int)
    requires b < a && after < before + 2 * n + 4
    ensures b * (2 * n + 4) + after < a * (2 * n + 4) + before
  {
    var k := 2 * n + 4;
    assert a * k == b * k + (a - b) * k;
    AtLeast(a - b, k);
  }

  lemma {:induction false} AtLeast(x: nat, k: nat)
    requires x >= 1
    ensures x * k >= k
  {
    if x > 1 {
      AtLeast(x - 1, k);
      assert x * k == (x - 1) * k + k;
    }
  }

  /** A step that takes nothing from the queue and puts nothing into it. */
  lemma LocalDecreases(j: Job, s: State, s': State, w: nat, p: Worker)
    requires w < |s.workers| && s'.workers == s.workers[w := p] && s'.taken == s.taken
    requires Turns(p) == Turns(s.workers[w]) && Cost(p) < Cost(s.workers[w])
    ensures Measure(j, s') < Measure(j, s)
  {
    hide Sum, Turns, Cost;
    SumUpdate(s.workers, Turns, w, p);
    SumUpdate(s.workers, Cost, w, p);
  }

  /** A queue operation. */
  lemma WakeDecreases(j: Job, s: State, s': State, w: nat, p: Worker)
    requires w < |s.workers| && s'.workers == WakeWorkers(s.workers)[w := p] && s.workers[w] != Asleep
    requires Turns(p) - s'.taken < Turns(s.workers[w]) - s.taken && Cost(p) <= 3
    ensures Measure(j, s') < Measure(j, s)
  {
    hide Sum, Turns, Cost, WakeWorkers;
    WakeSums(s.workers);
    SumUpdate(WakeWorkers(s.workers), Turns, w, p);
    SumUpdate(WakeWorkers(s.workers), Cost, w, p);
    Cheaper(j.tasks - s.taken + Sum(s.workers, Turns), j.tasks - s'.taken + Sum(s'.workers, Turns), |s.workers|,
            Sum(s.workers, Cost), Sum(s'.workers, Cost));
  }

  lemma StepDecreases(j: Job, s: State, w: nat)
    requires w < |s.workers| && Next(j, s, w).Some?
    ensures Measure(j, Next(j, s, w).value) < Measure(j, s)
  {
    hide Measure, WakeWorkers;
    var s' := Next(j, s, w).value;
    var p := s'.workers[w];
    if s.workers[w].Cracking? || (s.workers[w] != Returning && s.items == []) {
      LocalDecreases(j, s, s', w, p);
    } else {
      WakeDecreases(j, s, s', w, p);
    }
  }

  /** A spurious wakeup costs the worker one more look at the queue. */
  lemma SpuriousCosts(j: Job, s: State, w: nat)
    requires w < |s.workers| && s.workers[w] == Asleep
    ensures Measure(j, s.(workers := s.workers[w := Awakened])) == Measure(j, s) + 2
  {
    SumUpdate(s.workers, Turns, w, Awakened);
    SumUpdate(s.workers, Cost, w, Awakened);
    hide Sum;
  }

  /** A schedule of events, none of them skipped, and where it leads. */
  ghost predicate Schedule(j: Job, s: State, events: seq<Event>)
    decreases |events|
  {
    events == [] || (Apply(j, s, events[0]).Some? && Schedule(j, Apply(j, s, events[0]).value, events[1..]))
  }

  ghost function After(j: Job, s: State, events: seq<Event>): State
    requires Schedule(j, s, events)
    decreases |events|
  {
    if events == [] then s else After(j, Apply(j, s, events[0]).value, events[1..])
  }

  /** The spurious wakeups of a schedule; all other events are steps of workers. */
  function Wakeups(events: seq<Event>): (k: nat)
    ensures k <= |events|
  {
    if events == [] then 0 else (if events[0].Spurious? then 1 else 0) + Wakeups(events[1..])
  }

  lemma {:induction false} ScheduleKeepsInv(j: Job, s: State, events: seq<Event>)
    requires Inv(j, s) && Schedule(j, s, events)
    ensures Inv(j, After(j, s, events)) && |After(j, s, events).workers| == |s.workers|
    ensures |events| + Measure(j, After(j, s, events)) <= Measure(j, s) + 3 * Wakeups(events)
    decreases |events|
  {
    hide Inv, Next, Measure;
    if events != [] {
      ApplyKeepsInv(j, s, events[0]);
      if events[0].Turn? {
        StepDecreases(j, s, events[0].w);
      } else {
        SpuriousCosts(j, s, events[0].w);
      }
      ScheduleKeepsInv(j, Apply(j, s, events[0]).value, events[1..]);
    }
  }

  lemma MeasurePositive(j: Job, s: State)
    requires Inv(j, s)
    ensures Measure(j, s) >= 0
  {
    hide EachOnce, Counted, SleepersRight, Sum;
    var a, k := j.tasks - s.taken + Sum(s.workers, Turns), 2 * |s.workers| + 4;
    assert a >= 0;
    assert a * k >= 0;
  }

  lemma MeasureAtStart(j: Job, threads: nat)
    ensures Measure(j, Initial(j, threads)) == (j.tasks + 2 * threads) * (2 * threads + 4) + 2 * threads
  {
    AllPulling(Initial(j, threads).workers);
  }

  lemma {:induction false} AllPulling(ws: seq<Worker>)
    requires forall w :: 0 <= w < |ws| ==> ws[w] == Pulling
    ensures Sum(ws, Turns) == 2 * |ws| && Sum(ws, Cost) == 2 * |ws|
  {
    if ws != [] {
      AllPulling(ws[1..]);
    }
  }

  /**
    Any number of tasks and of workers, under any schedule: between spurious wakeups it cannot go on for ever, and when
    no worker can take another step all have stopped, every task was handled exactly once, and the counters add up.
   */
  lemma AllTasksAreHandled(j: Job, threads: nat, events: seq<Event>)
    requires threads > 0 && Schedule(j, Initial(j, threads), events)
    ensures |events| <= (j.tasks + 2 * threads) * (2 * threads + 4) + 2 * threads + 3 * Wakeups(events)
    ensures var s := After(j, Initial(j, threads), events);
            && |s.workers| == threads
            && ((forall w :: 0 <= w < |s.workers| ==> Next(j, s, w).None?) ==>
                  && AllFinished(s) && (forall id :: 0 <= id < j.tasks <==> id in s.handled)
                  && (forall i, k :: 0 <= i < k < |s.handled| ==> s.handled[i] != s.handled[k])
                  && s.recovered + s.failed == j.tasks
                  && s.recovered == |set id: nat | id < j.tasks && id in j.cracked|)
  {
    InitialOk(j, threads);
    MeasureAtStart(j, threads);
    ScheduleKeepsInv(j, Initial(j, threads), events);
    var s := After(j, Initial(j, threads), events);
    MeasurePositive(j, s);
    hide Inv, Measure, Initial, Next;
    if forall w :: 0 <= w < |s.workers| ==> Next(j, s, w).None? {
      if !AllFinished(s) {
        SomeoneCanStep(j, s);
      }
      FinishedMeansHandled(j, s);
    }
  }
}

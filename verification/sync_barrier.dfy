/**
  The reusable barrier of critical_concurrency/barrier.c, for any number of threads. A step is what a thread does
  between acquiring the mutex and giving it up, by returning or by waiting on the condition variable.
 */
module ReusableBarrier {
  /**
    Where a thread is: outside; asleep in the first loop (waiting for the barrier to close) or woken there; asleep in
    the second loop (gathered, waiting for it to open) or woken there.
   */
  datatype Place = Outside | EnterAsleep | EnterWoken | GatherAsleep | GatherWoken

  /** `left` counts the barrier_wait calls a thread has returned from. */
  datatype Thread = Thread(at: Place, left: nat)

  /** The fields of `barrier_t`, the threads, and for the current round how many arrived in it and left it. */
  datatype Barrier = Barrier(
    n: nat, count: nat, timesUsed: nat, threads: seq<Thread>, round: nat, arrived: nat, gone: nat)

  datatype Event = Turn(t: nat) | Spurious(t: nat)

  predicate Gathered(p: Thread) { p.at == GatherAsleep || p.at == GatherWoken }

  predicate Asleep(p: Thread) { p.at == EnterAsleep || p.at == GatherAsleep }

  function Woken(p: Thread): Thread {
    if p.at == EnterAsleep then p.(at := EnterWoken) else if p.at == GatherAsleep then p.(at := GatherWoken) else p
  }

  /** `pthread_cond_broadcast`. */
  function WakeAll(ts: seq<Thread>): (r: seq<Thread>)
    ensures |r| == |ts|
    ensures forall i :: 0 <= i < |ts| ==> r[i] == Woken(ts[i])
  {
    if ts == [] then [] else [Woken(ts[0])] + WakeAll(ts[1..])
  }

  function Moved(s: Barrier, t: nat, at: Place): Barrier
    requires t < |s.threads|
  {
    s.(threads := s.threads[t := Thread(at, s.threads[t].left)])
  }

  /** Wake everybody; the thread leaves. */
  function Departed(s: Barrier, t: nat): seq<Thread>
    requires t < |s.threads|
  {
    WakeAll(s.threads)[t := Thread(Outside, s.threads[t].left + 1)]
  }

  /** Not the last to arrive: gather. */
  function Arrived(s: Barrier, t: nat): Barrier
    requires t < |s.threads|
  {
    var threads := s.threads[t := Thread(GatherAsleep, s.threads[t].left)];
    Barrier(s.n, s.count + 1, s.timesUsed, threads, s.round, s.arrived + 1, s.gone)
  }

  /** The last to arrive: count in and out again, open the barrier, wake everybody and leave. */
  function Opened(s: Barrier, t: nat): Barrier
    requires t < |s.threads|
  {
    Barrier(s.n, s.count + 1 - 1, 0, Departed(s, t), s.round, s.arrived + 1, s.gone + 1)
  }

  /** Not the last to leave. */
  function Left(s: Barrier, t: nat): Barrier
    requires t < |s.threads| && s.count > 0
  {
    Barrier(s.n, s.count - 1, s.timesUsed, Departed(s, t), s.round, s.arrived, s.gone + 1)
  }

  /** The last to leave closes the barrier; a new round begins. */
  function Closed(s: Barrier, t: nat): Barrier
    requires t < |s.threads|
  {
    Barrier(s.n, 0, 1, Departed(s, t), s.round + 1, 0, 0)
  }

  /** Arriving where nobody is awaited, which takes n = 0: out again at once. */
  function Passed(s: Barrier, t: nat): Barrier
    requires t < |s.threads|
  {
    Barrier(s.n, s.count + 1 - 1, if s.count == 0 then 1 else s.timesUsed, Departed(s, t), s.round, s.arrived, s.gone)
  }

  /** From the first loop on: wait for the barrier to close, arrive, and open it as the last one or gather. */
  function Enter(s: Barrier, t: nat): Barrier
    requires t < |s.threads|
  {
    if s.timesUsed == 0 then Moved(s, t, EnterAsleep)
    else if s.count + 1 == s.n then Opened(s, t)
    else if s.count + 1 < s.n then Arrived(s, t)
    else Passed(s, t)
  }

  /** From the second loop on: wait while the barrier is closed, leave, and close it as the last one. */
  function Gather(s: Barrier, t: nat): Barrier
    requires t < |s.threads| && s.count > 0
  {
    if s.count < s.n && s.timesUsed != 0 then Moved(s, t, GatherAsleep)
    else if s.count - 1 == 0 then Closed(s, t)
    else Left(s, t)
  }

  /** A thread outside may call barrier_wait at any time; a sleeping thread moves only when woken. */
  function Step(s: Barrier, e: Event): Barrier
    requires forall t :: 0 <= t < |s.threads| && Gathered(s.threads[t]) ==> s.count > 0
  {
    if e.t >= |s.threads| then s
    else
      var p := s.threads[e.t];
      if e.Spurious? then Moved(s, e.t, Woken(p).at)
      else match p.at
        case Outside => Enter(s, e.t)
        case EnterWoken => Enter(s, e.t)
        case GatherWoken => assert Gathered(p); Gather(s, e.t)
        case EnterAsleep => s
        case GatherAsleep => s
  }

  function CountGathered(ts: seq<Thread>): (k: nat)
    ensures k <= |ts|
    ensures k == 0 <==> forall i :: 0 <= i < |ts| ==> !Gathered(ts[i])
    ensures k == |ts| <==> forall i :: 0 <= i < |ts| ==> Gathered(ts[i])
  {
    if ts == [] then 0 else (if Gathered(ts[0]) then 1 else 0) + CountGathered(ts[1..])
  }

  lemma {:induction false} CountUpdate(ts: seq<Thread>, t: nat, p: Thread)
    requires t < |ts|
    ensures CountGathered(ts[t := p]) ==
            CountGathered(ts) - (if Gathered(ts[t]) then 1 else 0) + (if Gathered(p) then 1 else 0)
  {
    if t == 0 {
      assert ts[t := p][1..] == ts[1..];
    } else {
      CountUpdate(ts[1..], t - 1, p);
      assert ts[t := p][1..] == ts[1..][t - 1 := p];
    }
  }

  lemma {:induction false} CountWake(ts: seq<Thread>)
    ensures CountGathered(WakeAll(ts)) == CountGathered(ts)
  {
    if ts != [] {
      CountWake(ts[1..]);
    }
  }

  function TotalLeft(ts: seq<Thread>): nat {
    if ts == [] then 0 else ts[0].left + TotalLeft(ts[1..])
  }

  lemma {:induction false} LeftUpdate(ts: seq<Thread>, t: nat, p: Thread)
    requires t < |ts|
    ensures TotalLeft(ts[t := p]) == TotalLeft(ts) - ts[t].left + p.left
  {
    if t == 0 {
      assert ts[t := p][1..] == ts[1..];
    } else {
      LeftUpdate(ts[1..], t - 1, p);
      assert ts[t := p][1..] == ts[1..][t - 1 := p];
    }
  }

  lemma {:induction false} LeftWake(ts: seq<Thread>)
    ensures TotalLeft(WakeAll(ts)) == TotalLeft(ts)
  {
    if ts != [] {
      LeftWake(ts[1..]);
    }
  }

  /** The condition a sleeping thread waits on still holds: no wakeup is lost. */
  ghost predicate SleepersRight(s: Barrier) {
    forall t :: 0 <= t < |s.threads| ==>
                  && (s.threads[t].at == EnterAsleep ==> s.timesUsed == 0)
                  && (s.threads[t].at == GatherAsleep ==> s.timesUsed != 0 && s.count < s.n)
  }

  /** Closed, a round gathers and nobody has left it; open, all n arrived and those still counted have yet to leave. */
  ghost predicate RoundsRight(s: Barrier) {
    && s.timesUsed <= 1 && s.count == CountGathered(s.threads) && s.count < s.n
    && (s.timesUsed == 1 ==> s.arrived == s.count && s.gone == 0)
    && (s.timesUsed == 0 ==> s.arrived == s.n && s.gone == s.n - s.count && s.count > 0)
    && TotalLeft(s.threads) == s.n * s.round + s.gone
  }

  /** With exactly n threads: everybody has left the completed rounds, and the open one unless still gathered. */
  ghost predicate InStep(s: Barrier) {
    |s.threads| == s.n ==>
      forall t :: 0 <= t < |s.threads| ==>
                    s.threads[t].left == if s.timesUsed == 0 && !Gathered(s.threads[t]) then s.round + 1 else s.round
  }

  ghost predicate BarrierInv(s: Barrier) {
    s.n >= 2 && SleepersRight(s) && RoundsRight(s) && InStep(s)
  }

  lemma InvSteps(s: Barrier)
    requires BarrierInv(s)
    ensures forall t :: 0 <= t < |s.threads| && Gathered(s.threads[t]) ==> s.count > 0
  {
  }

  /** `barrier_init`, before any thread arrives. */
  function Initial(n: nat, threads: nat): Barrier {
    Barrier(n, 0, 1, seq(threads, _ => Thread(Outside, 0)), 0, 0, 0)
  }

  lemma {:induction false} NobodyLeft(ts: seq<Thread>)
    requires forall i :: 0 <= i < |ts| ==> ts[i] == Thread(Outside, 0)
    ensures TotalLeft(ts) == 0 && CountGathered(ts) == 0
  {
    if ts != [] {
      NobodyLeft(ts[1..]);
    }
  }

  lemma InitialOk(n: nat, threads: nat)
    requires n >= 2
    ensures BarrierInv(Initial(n, threads))
  {
    NobodyLeft(Initial(n, threads).threads);
  }

  // ---- steps ----

  lemma OnlyOneGathered(ts: seq<Thread>, t: nat)
    requires t < |ts| && Gathered(ts[t]) && CountGathered(ts) == 1
    ensures forall u :: 0 <= u < |ts| && u != t ==> !Gathered(ts[u])
  {
    var p := Thread(Outside, 0);
    CountUpdate(ts, t, p);
    assert forall u :: 0 <= u < |ts| && u != t ==> ts[t := p][u] == ts[u];
  }

  lemma AllOthersGathered(ts: seq<Thread>, t: nat)
    requires t < |ts| && !Gathered(ts[t]) && CountGathered(ts) == |ts| - 1
    ensures forall u :: 0 <= u < |ts| && u != t ==> Gathered(ts[u])
  {
    var p := Thread(GatherAsleep, 0);
    CountUpdate(ts, t, p);
    assert forall u :: 0 <= u < |ts| && u != t ==> ts[t := p][u] == ts[u];
  }

  /** What a change of one thread does to the two counts, alone and after a broadcast. */
  lemma Counts(ts: seq<Thread>, t: nat, p: Thread)
    requires t < |ts|
    ensures var d := (if Gathered(p) then 1 else 0) - (if Gathered(ts[t]) then 1 else 0);
            && CountGathered(ts[t := p]) == CountGathered(ts) + d
            && CountGathered(WakeAll(ts)[t := p]) == CountGathered(ts) + d
    ensures TotalLeft(ts[t := p]) == TotalLeft(ts) + p.left - ts[t].left
    ensures TotalLeft(WakeAll(ts)[t := p]) == TotalLeft(ts) + p.left - ts[t].left
  {
    CountUpdate(ts, t, p);
    LeftUpdate(ts, t, p);
    CountWake(ts);
    LeftWake(ts);
    CountUpdate(WakeAll(ts), t, p);
    LeftUpdate(WakeAll(ts), t, p);
  }

  /** Sleeping threads and completed rounds, thread by thread. */
  ghost predicate ThreadsRight(s: Barrier) { SleepersRight(s) && InStep(s) }

  lemma InvParts(s: Barrier)
    ensures BarrierInv(s) <==> s.n >= 2 && RoundsRight(s) && ThreadsRight(s)
  {
    hide SleepersRight, InStep, RoundsRight;
  }

  /** A thread that changes place, but neither gathers nor leaves. */
  lemma MoveKeepsInv(s: Barrier, t: nat, at: Place)
    requires BarrierInv(s) && t < |s.threads| && (Gathered(Thread(at, 0)) <==> Gathered(s.threads[t]))
    requires at == EnterAsleep ==> s.timesUsed == 0
    requires at == GatherAsleep ==> s.timesUsed != 0
    ensures BarrierInv(Moved(s, t, at))
  {
    hide CountGathered, TotalLeft, WakeAll;
    var s' := Moved(s, t, at);
    assert RoundsRight(s') by {
      hide SleepersRight, InStep;
      Counts(s.threads, t, Thread(at, s.threads[t].left));
    }
    assert s.count < s.n;
    hide RoundsRight;
    assert ThreadsRight(s');
  }

  lemma ArriveKeepsInv(s: Barrier, t: nat)
    requires BarrierInv(s) && t < |s.threads| && !Gathered(s.threads[t]) && s.timesUsed == 1 && s.count + 1 < s.n
    ensures BarrierInv(Arrived(s, t))
  {
    hide CountGathered, TotalLeft, WakeAll;
    var s' := Arrived(s, t);
    assert RoundsRight(s') by {
      hide SleepersRight, InStep;
      Counts(s.threads, t, Thread(GatherAsleep, s.threads[t].left));
    }
    hide RoundsRight;
    assert ThreadsRight(s');
  }

  /**
    Waking everybody and sending one thread outside keeps the threads right, if the barrier is then open or nobody is
    gathered.
   */
  lemma BroadcastThreads(s: Barrier, s': Barrier, t: nat)
    requires ThreadsRight(s) && t < |s.threads|
    requires s'.threads == WakeAll(s.threads)[t := Thread(Outside, s.threads[t].left + 1)]
    requires s'.n == s.n
    requires |s.threads| == s.n ==>
               && s.threads[t].left + 1 == (if s'.timesUsed == 0 then s'.round + 1 else s'.round)
               && (forall u :: 0 <= u < |s.threads| && u != t ==>
                     s.threads[u].left ==
                     if s'.timesUsed == 0 && !Gathered(s.threads[u]) then s'.round + 1 else s'.round)
    ensures ThreadsRight(s')
  {
    hide WakeAll;
    assert forall u :: 0 <= u < |s'.threads| ==>
        && !Asleep(s'.threads[u])
        && (u != t ==> s'.threads[u].left == s.threads[u].left)
        && (u != t ==> (Gathered(s'.threads[u]) <==> Gathered(s.threads[u])));
  }

  /** The last arrival opens the barrier and leaves first. */
  lemma OpenKeepsInv(s: Barrier, t: nat)
    requires BarrierInv(s) && t < |s.threads| && !Gathered(s.threads[t]) && s.timesUsed == 1 && s.count + 1 == s.n
    ensures BarrierInv(Opened(s, t))
  {
    hide CountGathered, TotalLeft, WakeAll, SleepersRight;
    var s' := Opened(s, t);
    InvParts(s);
    Counts(s.threads, t, Thread(Outside, s.threads[t].left + 1));
    if |s.threads| == s.n {
      AllOthersGathered(s.threads, t);
    }
    BroadcastThreads(s, s', t);
    InvParts(s');
  }

  lemma LeaveKeepsInv(s: Barrier, t: nat)
    requires BarrierInv(s) && t < |s.threads| && Gathered(s.threads[t]) && s.timesUsed == 0 && s.count > 1
    ensures BarrierInv(Left(s, t))
  {
    hide CountGathered, TotalLeft, WakeAll, SleepersRight;
    var s' := Left(s, t);
    InvParts(s);
    Counts(s.threads, t, Thread(Outside, s.threads[t].left + 1));
    BroadcastThreads(s, s', t);
    InvParts(s');
  }

  /** The last one to leave closes the barrier, and the next round begins. */
  lemma CloseKeepsInv(s: Barrier, t: nat)
    requires BarrierInv(s) && t < |s.threads| && Gathered(s.threads[t]) && s.timesUsed == 0 && s.count == 1
    ensures BarrierInv(Closed(s, t))
  {
    hide CountGathered, TotalLeft, WakeAll, SleepersRight;
    var s' := Closed(s, t);
    InvParts(s);
    Counts(s.threads, t, Thread(Outside, s.threads[t].left + 1));
    OnlyOneGathered(s.threads, t);
    assert s.n * (s.round + 1) == s.n * s.round + s.n;
    BroadcastThreads(s, s', t);
    InvParts(s');
  }

  lemma CountBelow(s: Barrier)
    requires BarrierInv(s)
    ensures s.count < s.n && s.timesUsed <= 1
  {
  }

  lemma EnterKeepsInv(s: Barrier, t: nat)
    requires BarrierInv(s) && t < |s.threads| && !Gathered(s.threads[t])
    ensures BarrierInv(Enter(s, t)) 
  {
    CountBelow(s);
    hide BarrierInv, CountGathered, Moved, Opened, Arrived, Left, Closed;
    if s.timesUsed == 0 {
      MoveKeepsInv(s, t, EnterAsleep);
    } else if s.count + 1 == s.n {
      OpenKeepsInv(s, t);
    } else {
      ArriveKeepsInv(s, t);
    }
  }

  lemma GatherKeepsInv(s: Barrier, t: nat)
    requires BarrierInv(s) && t < |s.threads| && Gathered(s.threads[t]) && s.count > 0
    ensures BarrierInv(Gather(s, t)) 
  {
    CountBelow(s);
    hide BarrierInv, CountGathered, Moved, Opened, Arrived, Left, Closed;
    if s.timesUsed != 0 {
      MoveKeepsInv(s, t, GatherAsleep);
    } else if s.count == 1 {
      CloseKeepsInv(s, t);
    } else {
      LeaveKeepsInv(s, t);
    }
  }

  lemma StepKeepsSize(s: Barrier, e: Event)
    requires forall t :: 0 <= t < |s.threads| && Gathered(s.threads[t]) ==> s.count > 0
    ensures |Step(s, e).threads| == |s.threads| && Step(s, e).n == s.n
  {
    hide WakeAll;
  }

  /** Every step of every thread keeps the invariant. */
  lemma StepKeepsInv(s: Barrier, e: Event)
    requires BarrierInv(s)
    ensures forall t :: 0 <= t < |s.threads| && Gathered(s.threads[t]) ==> s.count > 0
    ensures BarrierInv(Step(s, e)) && |Step(s, e).threads| == |s.threads| && Step(s, e).n == s.n
  {
    InvSteps(s);
    StepKeepsSize(s, e);
    hide BarrierInv, Enter, Gather, Moved;
    if e.t < |s.threads| {
      var p := s.threads[e.t];
      if e.Spurious? {
        MoveKeepsInv(s, e.t, Woken(p).at);
      } else if p.at == Outside || p.at == EnterWoken {
        EnterKeepsInv(s, e.t);
      } else if p.at == GatherWoken {
        assert Gathered(p);
        GatherKeepsInv(s, e.t);
      }
    }
  }

  /** With n <= 1 nobody ever gathers: for n = 0 nobody waits, for n = 1 the barrier stays open after the first call. */
  ghost predicate SmallInv(s: Barrier) {
    && s.n <= 1 && s.count == 0 && (forall t :: 0 <= t < |s.threads| ==> !Gathered(s.threads[t]))
    && (s.n == 0 || s.timesUsed == 1 ==>
          s.timesUsed == 1 && (forall t :: 0 <= t < |s.threads| ==> s.threads[t].at == Outside))
    && (s.n == 1 ==> s.timesUsed <= 1 && TotalLeft(s.threads) == 1 - s.timesUsed)
  }

  ghost predicate RunInv(s: Barrier) {
    if s.n >= 2 then BarrierInv(s) else SmallInv(s)
  }

  lemma SmallStep(s: Barrier, e: Event)
    requires SmallInv(s)
    ensures SmallInv(Step(s, e)) && |Step(s, e).threads| == |s.threads| && Step(s, e).n == s.n
    ensures s.n == 0 && e.Turn? && e.t < |s.threads| ==> Step(s, e).threads[e.t].left == s.threads[e.t].left + 1
  {
    hide CountGathered, TotalLeft, WakeAll;
    if e.t < |s.threads| {
      Counts(s.threads, e.t, Step(s, e).threads[e.t]);
    }
  }

  lemma RunStep(s: Barrier, e: Event)
    requires RunInv(s)
    ensures forall t :: 0 <= t < |s.threads| && Gathered(s.threads[t]) ==> s.count > 0
    ensures RunInv(Step(s, e)) && |Step(s, e).threads| == |s.threads| && Step(s, e).n == s.n
  {
    if s.n >= 2 {
      StepKeepsInv(s, e);
    } else {
      SmallStep(s, e);
    }
  }

  function Run(s: Barrier, events: seq<Event>): (s': Barrier)
    requires RunInv(s)
    ensures RunInv(s') && |s'.threads| == |s.threads| && s'.n == s.n
    decreases |events|
  {
    if events == [] then s else
    RunStep(s, events[0]);
    Run(Step(s, events[0]), events[1..])
  }

  // ---- what the barrier is for ----

  predicate Leaves(s: Barrier, s': Barrier, t: nat)
    requires t < |s.threads| == |s'.threads|
  {
    s'.threads[t].left > s.threads[t].left
  }

  predicate Arrives(s: Barrier, s': Barrier, t: nat)
    requires t < |s.threads| == |s'.threads|
  {
    !Gathered(s.threads[t]) && (Gathered(s'.threads[t]) || Leaves(s, s', t))
  }

  /**
    Over any run: a thread only leaves a round once n threads have arrived in it, a thread only arrives in a round
    while none has left it, a round ends when exactly n have left it, and sleepers sleep for a reason that still holds.
   */
  lemma RoundsAreSeparate(n: nat, threads: nat, events: seq<Event>, e: Event)
    requires n >= 2 && e.t < threads
    ensures BarrierInv(Initial(n, threads))
    ensures var s := Run(Initial(n, threads), events);
            && BarrierInv(s)
            && (forall t :: 0 <= t < |s.threads| && Gathered(s.threads[t]) ==> s.count > 0)
            && var s' := Step(s, e);
               && |s.threads| == |s'.threads| == threads
               && (Leaves(s, s', e.t) ==> if Arrives(s, s', e.t) then s.arrived == n - 1 else s.arrived == n)
               && (Arrives(s, s', e.t) ==> s.gone == 0)
               && (s'.round != s.round ==>
                     s'.round == s.round + 1 && s.gone == n - 1 && Leaves(s, s', e.t) && s.arrived == n)
               && TotalLeft(s.threads) == n * s.round + s.gone && s.gone < n
               && SleepersRight(s)
  {
    InitialOk(n, threads);
    var s := Run(Initial(n, threads), events);
    InvSteps(s);
    StepKeepsInv(s, e);
  }

  /** With exactly n threads, no two threads are more than one round apart. */
  lemma ThreadsStayTogether(n: nat, events: seq<Event>, t: nat, u: nat)
    requires n >= 2 && t < n && u < n
    ensures BarrierInv(Initial(n, n))
    ensures var s := Run(Initial(n, n), events);
            |s.threads| == n && s.threads[t].left <= s.threads[u].left + 1
  {
    InitialOk(n, n);
  }

  function CountInside(ts: seq<Thread>): (k: nat)
    ensures k <= |ts|
  {
    if ts == [] then 0 else (if ts[0].at != Outside then 1 else 0) + CountInside(ts[1..])
  }

  lemma {:induction false} MoreInside(ts: seq<Thread>) returns (t: nat)
    requires CountInside(ts) > CountGathered(ts)
    ensures t < |ts| && ts[t].at != Outside && !Gathered(ts[t])
  {
    if ts[0].at != Outside && !Gathered(ts[0]) {
      return 0;
    }
    t := MoreInside(ts[1..]);
    t := t + 1;
  }

  /** If n threads are inside the barrier, one of them is awake, whoever is outside. */
  lemma SomeoneIsAwake(s: Barrier)
    requires BarrierInv(s) && CountInside(s.threads) >= s.n
    ensures exists t :: 0 <= t < |s.threads| && s.threads[t].at != Outside && !Asleep(s.threads[t])
  {
    if s.timesUsed == 0 {
      var t :| 0 <= t < |s.threads| && Gathered(s.threads[t]);
      assert !Asleep(s.threads[t]);
    } else {
      var t := MoreInside(s.threads);
      assert !Asleep(s.threads[t]);
    }
  }

  // ---- progress ----

  /** What a turn does to its thread, by where the thread is and whether the barrier is open. */
  lemma TurnMeans(s: Barrier, t: nat)
    requires BarrierInv(s) && t < |s.threads|
    ensures forall u :: 0 <= u < |s.threads| && Gathered(s.threads[u]) ==> s.count > 0
    ensures var p, s' := s.threads[t], Step(s, Turn(t));
            && |s'.threads| == |s.threads|
            && (Asleep(p) ==> s' == s)
            && (p.at == GatherWoken ==>
                  s'.threads[t] ==
                  if s.timesUsed == 0 then Thread(Outside, p.left + 1) else Thread(GatherAsleep, p.left))
            && (p.at == Outside || p.at == EnterWoken ==>
                  s'.threads[t] == if s.timesUsed == 0 then Thread(EnterAsleep, p.left)
                                   else if CountGathered(s.threads) + 1 == s.n then Thread(Outside, p.left + 1)
                                   else Thread(GatherAsleep, p.left))
  {
    hide CountGathered, TotalLeft;
  }

  /** Every thread makes `calls` calls: those inside have not returned from their last one. */
  ghost predicate WithinCalls(s: Barrier, calls: nat) {
    forall t :: 0 <= t < |s.threads| ==>
                  s.threads[t].left <= calls && (s.threads[t].at != Outside ==> s.threads[t].left < calls)
  }

  /** A thread that is awake has a step to take, unless it is outside for good; a sleeping one can be woken. */
  predicate Possible(s: Barrier, calls: nat, e: Event) {
    && e.t < |s.threads|
    && var p := s.threads[e.t];
       if e.Spurious? then Asleep(p) else !Asleep(p) && (p.at == Outside ==> p.left < calls)
  }

  /** How many steps a thread takes at most before it returns or waits for somebody else. */
  function Weight(at: Place): nat {
    match at
    case Outside => 3
    case EnterWoken => 2
    case EnterAsleep => 1
    case GatherWoken => 1
    case GatherAsleep => 0
  }

  function Weights(ts: seq<Thread>): nat {
    if ts == [] then 0 else Weight(ts[0].at) + Weights(ts[1..])
  }

  lemma {:induction false} WeightsUpdate(ts: seq<Thread>, t: nat, p: Thread)
    requires t < |ts|
    ensures Weights(ts[t := p]) == Weights(ts) - Weight(ts[t].at) + Weight(p.at)
  {
    if t == 0 {
      assert ts[t := p][1..] == ts[1..];
    } else {
      WeightsUpdate(ts[1..], t - 1, p);
      assert ts[t := p][1..] == ts[1..][t - 1 := p];
    }
  }

  lemma {:induction false} WeightsWake(ts: seq<Thread>)
    ensures Weights(WakeAll(ts)) <= Weights(ts) + |ts|
  {
    if ts != [] {
      WeightsWake(ts[1..]);
    }
  }

  /** The returns still to come, each with its broadcast, and the steps in between. */
  function Measure(s: Barrier, calls: nat): int {
    (|s.threads| * calls - TotalLeft(s.threads)) * (|s.threads| + 3) + Weights(s.threads)
  }

  lemma {:induction false} LeftBelow(ts: seq<Thread>, calls: nat)
    requires forall t :: 0 <= t < |ts| ==> ts[t].left <= calls
    ensures TotalLeft(ts) <= |ts| * calls
  {
    if ts != [] {
      LeftBelow(ts[1..], calls);
      assert |ts| * calls == |ts[1..]| * calls + calls;
    }
  }

  lemma MeasureMoves(s: Barrier, s': Barrier, calls: nat, t: nat, at: Place)
    requires t < |s.threads| && s'.threads == s.threads[t := Thread(at, s.threads[t].left)]
    ensures Measure(s', calls) == Measure(s, calls) - Weight(s.threads[t].at) + Weight(at)
  {
    WeightsUpdate(s.threads, t, Thread(at, s.threads[t].left));
    LeftUpdate(s.threads, t, Thread(at, s.threads[t].left));
  }

  lemma MeasureReturns(s: Barrier, s': Barrier, calls: nat, t: nat)
    requires t < |s.threads| && s'.threads == Departed(s, t)
    ensures Measure(s', calls) < Measure(s, calls)
  {
    hide Weights, TotalLeft, WakeAll;
    var p, m := Thread(Outside, s.threads[t].left + 1), |s.threads|;
    WeightsUpdate(WakeAll(s.threads), t, p);
    WeightsWake(s.threads);
    LeftUpdate(WakeAll(s.threads), t, p);
    LeftWake(s.threads);
    OneLess(m * calls - TotalLeft(s.threads), m + 3);
  }

  lemma OneLess(r: int, k: int)
    ensures (r - 1) * k == r * k - k
  {
  }

  /** Every turn that can be taken brings the end nearer; a wakeup without cause costs one more turn. */
  lemma PossibleDecreases(s: Barrier, calls: nat, e: Event)
    requires BarrierInv(s) && Possible(s, calls, e)
    ensures forall t :: 0 <= t < |s.threads| && Gathered(s.threads[t]) ==> s.count > 0
    ensures var s' := Step(s, e);
            Measure(s', calls) + 1 <= Measure(s, calls) + if e.Spurious? then 2 else 0
  {
    InvSteps(s);
    CountBelow(s);
    hide BarrierInv, Measure, Departed;
    var p, s' := s.threads[e.t], Step(s, e);
    if e.Spurious? {
      MeasureMoves(s, s', calls, e.t, Woken(p).at);
    } else if p.at == GatherWoken {
      assert Gathered(p);
      if s.timesUsed != 0 {
        MeasureMoves(s, s', calls, e.t, GatherAsleep);
      } else {
        MeasureReturns(s, s', calls, e.t);
      }
    } else if s.timesUsed == 0 {
      MeasureMoves(s, s', calls, e.t, EnterAsleep);
    } else if s.count + 1 == s.n {
      MeasureReturns(s, s', calls, e.t);
    } else {
      MeasureMoves(s, s', calls, e.t, GatherAsleep);
    }
  }

  lemma PossibleKeepsCalls(s: Barrier, calls: nat, e: Event)
    requires BarrierInv(s) && WithinCalls(s, calls) && Possible(s, calls, e)
    ensures forall t :: 0 <= t < |s.threads| && Gathered(s.threads[t]) ==> s.count > 0
    ensures WithinCalls(Step(s, e), calls)
  {
    InvSteps(s);
    CountBelow(s);
    hide BarrierInv, CountGathered;
  }

  /** The events, one after the other, each of which is possible. */
  ghost predicate Schedule(s: Barrier, calls: nat, events: seq<Event>)
    requires BarrierInv(s)
    decreases |events|
  {
    InvSteps(s);
    events == [] ||
    (Possible(s, calls, events[0]) &&
     (StepKeepsInv(s, events[0]); Schedule(Step(s, events[0]), calls, events[1..])))
  }

  function Wakeups(events: seq<Event>): nat {
    if events == [] then 0 else (if events[0].Spurious? then 1 else 0) + Wakeups(events[1..])
  }

  lemma {:induction false} SchedulesEnd(s: Barrier, calls: nat, events: seq<Event>)
    requires BarrierInv(s) && WithinCalls(s, calls) && Schedule(s, calls, events)
    ensures WithinCalls(Run(s, events), calls)
    ensures |events| + Measure(Run(s, events), calls) <= Measure(s, calls) + 2 * Wakeups(events)
    decreases |events|
  {
    hide BarrierInv, Measure, WithinCalls, Possible, Step;
    if events == [] {
    } else {
      StepKeepsInv(s, events[0]);
      PossibleDecreases(s, calls, events[0]);
      PossibleKeepsCalls(s, calls, events[0]);
      SchedulesEnd(Step(s, events[0]), calls, events[1..]);
    }
  }

  /** Where no thread can go on, all have returned from their calls but those of a round that lacks threads. */
  lemma StoppedMeans(s: Barrier, calls: nat)
    requires BarrierInv(s) && WithinCalls(s, calls)
    requires forall t :: 0 <= t < |s.threads| ==> !Possible(s, calls, Turn(t))
    ensures s.timesUsed == 1 && CountGathered(s.threads) < s.n
    ensures forall t :: 0 <= t < |s.threads| ==>
                          s.threads[t].at == GatherAsleep || s.threads[t] == Thread(Outside, calls)
    ensures |s.threads| == s.n ==> forall t :: 0 <= t < |s.threads| ==> s.threads[t] == Thread(Outside, calls)
  {
    forall t | 0 <= t < |s.threads|
      ensures Asleep(s.threads[t]) || s.threads[t] == Thread(Outside, calls)
    {
      assert !Possible(s, calls, Turn(t));
    }
  }

  /**
    Any number of threads, any n >= 2, any number of calls per thread and any schedule: it ends, and then every call
    has returned but those of fewer than n threads, which wait for the round to fill. With exactly n threads all calls
    of all threads have returned.
   */
  lemma EveryCallReturns(n: nat, threads: nat, calls: nat, events: seq<Event>)
    requires n >= 2
    ensures BarrierInv(Initial(n, threads))
    ensures Schedule(Initial(n, threads), calls, events) ==>
              var s := Run(Initial(n, threads), events);
              && |events| <= threads * calls * (threads + 3) + 3 * threads + 2 * Wakeups(events)
              && ((forall t :: 0 <= t < |s.threads| ==> !Possible(s, calls, Turn(t))) ==>
                    && |s.threads| == threads && CountGathered(s.threads) < n
                    && (forall t :: 0 <= t < threads ==>
                          s.threads[t].at == GatherAsleep || s.threads[t] == Thread(Outside, calls))
                    && (threads == n ==> forall t :: 0 <= t < threads ==> s.threads[t] == Thread(Outside, calls)))
  {
    var s0 := Initial(n, threads);
    InitialOk(n, threads);
    NobodyLeft(s0.threads);
    AllOutside(s0.threads);
    assert WithinCalls(s0, calls);
    if Schedule(s0, calls, events) {
      hide BarrierInv, WithinCalls, Possible, Schedule, Initial;
      SchedulesEnd(s0, calls, events);
      var s := Run(s0, events);
      MeasureNatural(s, calls);
      if forall t :: 0 <= t < |s.threads| ==> !Possible(s, calls, Turn(t)) {
        StoppedMeans(s, calls);
      }
    }
  }

  lemma {:induction false} AllOutside(ts: seq<Thread>)
    requires forall t :: 0 <= t < |ts| ==> ts[t].at == Outside
    ensures Weights(ts) == 3 * |ts|
  {
    if ts != [] {
      AllOutside(ts[1..]);
    }
  }

  lemma MeasureNatural(s: Barrier, calls: nat)
    requires WithinCalls(s, calls)
    ensures Measure(s, calls) >= 0
  {
    LeftBelow(s.threads, calls);
    var r := |s.threads| * calls - TotalLeft(s.threads);
    assert r * (|s.threads| + 3) >= 0;
  }

  /** A barrier for a single thread lets one call through: nobody is left to close it, and all others sleep for ever. */
  lemma OneCallReturns(threads: nat, events: seq<Event>)
    ensures SmallInv(Initial(1, threads))
    ensures var s := Run(Initial(1, threads), events);
            && TotalLeft(s.threads) <= 1
            && (TotalLeft(s.threads) == 1 ==> s.timesUsed == 0 && s.count == 0)
            && (TotalLeft(s.threads) == 0 ==> forall t :: 0 <= t < threads ==> s.threads[t].at == Outside)
  {
    NobodyLeft(Initial(1, threads).threads);
  }

  /** A barrier for no thread holds nobody back. */
  lemma NobodyWaits(threads: nat, events: seq<Event>, t: nat)
    requires t < threads
    ensures SmallInv(Initial(0, threads))
    ensures var s := Run(Initial(0, threads), events);
            && |s.threads| == threads && (forall u :: 0 <= u < threads ==> s.threads[u].at == Outside)
            && Step(s, Turn(t)).threads[t].left == s.threads[t].left + 1
  {
    var s := Run(Initial(0, threads), events);
    SmallStep(s, Turn(t));
  }
}

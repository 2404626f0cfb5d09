/**
  The work queue of critical_concurrency/queue.c: the linked list under the lock, and the blocking protocol around it.
 */
module WorkQueue {
  /** `void *data`: a task number, or NULL. */
  datatype Item = Null | Task(id: nat)

  class Node {
    const data: Item
    var next: Node?

    constructor (data: Item)
      ensures this.data == data && next == null
    {
      this.data, next := data, null;
    }
  }

  class Queue {
    var head: Node?
    var tail: Node?
    var size: nat
    const maxSize: int
    ghost var nodes: seq<Node>
    ghost var repr: set<Node>

    ghost predicate Valid()
      reads this, repr
    {
      && size == |nodes|
      && (forall i :: 0 <= i < |nodes| ==> nodes[i] in repr)
      && (forall i, j :: 0 <= i < j < |nodes| ==> nodes[i] != nodes[j])
      && (if nodes == [] then head == null && tail == null
          else head == nodes[0] && tail == nodes[|nodes| - 1] && tail.next == null)
      && (forall i, j :: 0 <= i < j < |nodes| && j == i + 1 ==> nodes[i].next == nodes[j])
      && (maxSize > 0 ==> size <= maxSize)
    }

    /** The items from head to tail. */
    ghost function Items(): (s: seq<Item>)
      requires Valid()
      reads this, repr
      ensures |s| == size
    {
      seq(|nodes|, i requires 0 <= i < |nodes| && nodes[i] in repr reads this, repr => nodes[i].data)
    }

    /** The guard of the wait loop of `queue_push`. */
    predicate Full()
      reads this
    {
      maxSize > 0 && size == maxSize
    }

    /** `queue_create`. */
    constructor (maxSize: int)
      ensures Valid() && fresh(repr) && Items() == [] && this.maxSize == maxSize
    {
      head, tail, size := null, null, 0;
      this.maxSize := maxSize;
      nodes, repr := [], {};
    }

    /** `queue_push` behind its wait loop. */
    method Push(data: Item)
      requires Valid() && !Full()
      modifies this, repr
      ensures Valid() && fresh(repr - old(repr)) && Items() == old(Items()) + [data]
    {
      ghost var items := Items();
      var node := new Node(data);
      if tail != null {
        tail.next := node;
        tail := node;
      } else {
        head, tail := node, node;
      }
      size := size + 1;
      nodes := nodes + [node];
      repr := repr + {node};
      assert forall i :: 0 <= i < |nodes| ==> Items()[i] == (items + [data])[i];
    }

    /** `queue_pull` behind its wait loop. */
    method Pull() returns (data: Item)
      requires Valid() && size > 0
      modifies this
      ensures Valid() && repr == old(repr) && old(Items()) == [data] + Items()
    {
      ghost var items := Items();
      data := head.data;
      head := head.next;
      size := size - 1;
      nodes := nodes[1..];
      if size == 0 {
        head, tail := null, null;
      }
      assert forall i :: 0 <= i < |nodes| ==> Items()[i] == items[i + 1];
    }
  }

  // ---- blocking ----

  /** A thread of the queue's users: outside, or in the wait loop of a push or a pull, asleep or woken. */
  datatype User = Outside | PushAsleep(data: Item) | PushWoken(data: Item) | PullAsleep | PullWoken

  /** The queue, its users, and what was ever pushed and pulled, in order. */
  datatype Monitor = Monitor(maxSize: int, items: seq<Item>, users: seq<User>, pushed: seq<Item>, pulled: seq<Item>)

  datatype Event = CallPush(t: nat, data: Item) | CallPull(t: nat) | Resume(t: nat) | Spurious(t: nat)

  predicate IsFull(s: Monitor) { s.maxSize > 0 && |s.items| == s.maxSize }

  function Woken(u: User): User {
    match u
    case PushAsleep(d) => PushWoken(d)
    case PullAsleep => PullWoken
    case _ => u
  }

  function WakeAll(us: seq<User>): (r: seq<User>)
    ensures |r| == |us|
    ensures forall i :: 0 <= i < |us| ==> r[i] == Woken(us[i])
  {
    if us == [] then [] else [Woken(us[0])] + WakeAll(us[1..])
  }

  function TryPush(s: Monitor, t: nat, data: Item): Monitor
    requires t < |s.users|
  {
    if IsFull(s) then s.(users := s.users[t := PushAsleep(data)])
    else Monitor(s.maxSize, s.items + [data], WakeAll(s.users)[t := Outside], s.pushed + [data], s.pulled)
  }

  function TryPull(s: Monitor, t: nat): Monitor
    requires t < |s.users|
  {
    if s.items == [] then s.(users := s.users[t := PullAsleep])
    else Monitor(s.maxSize, s.items[1..], WakeAll(s.users)[t := Outside], s.pushed, s.pulled + [s.items[0]])
  }

  /** One critical section; calls are made from outside only, and only woken threads resume. */
  function Step(s: Monitor, e: Event): Monitor {
    if e.t >= |s.users| then s
    else match e
      case CallPush(t, d) => if s.users[t] == Outside then TryPush(s, t, d) else s
      case CallPull(t) => if s.users[t] == Outside then TryPull(s, t) else s
      case Resume(t) =>
        if s.users[t].PushWoken? then TryPush(s, t, s.users[t].data)
        else if s.users[t] == PullWoken then TryPull(s, t)
        else s
      case Spurious(t) => s.(users := s.users[t := Woken(s.users[t])])
  }

  /** First in, first out; the bound is kept; and whoever sleeps has reason to. */
  ghost predicate MonitorInv(s: Monitor) {
    && s.pushed == s.pulled + s.items
    && (s.maxSize > 0 ==> |s.items| <= s.maxSize)
    && (forall t :: 0 <= t < |s.users| && s.users[t].PushAsleep? ==> IsFull(s))
    && (forall t :: 0 <= t < |s.users| && s.users[t] == PullAsleep ==> s.items == [])
  }

  lemma StepKeepsInv(s: Monitor, e: Event)
    requires MonitorInv(s)
    ensures MonitorInv(Step(s, e)) && |Step(s, e).users| == |s.users| && s.pushed <= Step(s, e).pushed
    ensures s.pulled <= Step(s, e).pulled
  {
    hide WakeAll;
    var s' := Step(s, e);
    if s'.pulled != s.pulled {
      assert s.items == [s.items[0]] + s.items[1..];
      assert s.pulled + s.items == (s.pulled + [s.items[0]]) + s.items[1..];
    }
    if s'.pushed != s.pushed {
      var d := s'.pushed[|s.pushed|];
      assert s.pulled + (s.items + [d]) == (s.pulled + s.items) + [d];
    }
  }

  function Run(s: Monitor, events: seq<Event>): Monitor
    decreases |events|
  {
    if events == [] then s else Run(Step(s, events[0]), events[1..])
  }

  /**
    Whatever the calls and the schedule, what was pulled is a prefix of what was pushed, and sleepers sleep for a
    reason that still holds.
   */
  lemma {:induction false} PulledIsPrefix(s: Monitor, events: seq<Event>)
    requires MonitorInv(s)
    ensures MonitorInv(Run(s, events)) && Run(s, events).pulled <= Run(s, events).pushed
    decreases |events|
  {
    if events != [] {
      StepKeepsInv(s, events[0]);
      PulledIsPrefix(Step(s, events[0]), events[1..]);
    }
  }

  // ---- progress ----

  predicate Sleeps(u: User) { u.PushAsleep? || u == PullAsleep }

  predicate IsWoken(u: User) { u.PushWoken? || u == PullWoken }

  /** A push that finds room leaves its item behind all others and returns; else it waits. */
  lemma PushMeans(s: Monitor, t: nat, data: Item)
    requires MonitorInv(s) && t < |s.users|
    requires s.users[t] == Outside || s.users[t] == PushWoken(data)
    ensures var s' := Step(s, if s.users[t] == Outside then CallPush(t, data) else Resume(t));
            if s.maxSize > 0 && |s.items| == s.maxSize
            then s' == s.(users := s.users[t := PushAsleep(data)])
            else && s'.items == s.items + [data] && s'.pushed == s.pushed + [data] && s'.pulled == s.pulled
                 && |s'.users| == |s.users| && s'.users[t] == Outside
                 && (forall u :: 0 <= u < |s.users| ==> !Sleeps(s'.users[u]))
  {
    hide WakeAll;
  }

  /** A pull that finds an item takes the one pushed first of those left and returns; else it waits. */
  lemma PullMeans(s: Monitor, t: nat)
    requires MonitorInv(s) && t < |s.users|
    requires s.users[t] == Outside || s.users[t] == PullWoken
    ensures var s' := Step(s, if s.users[t] == Outside then CallPull(t) else Resume(t));
            if |s.pulled| == |s.pushed| then s' == s.(users := s.users[t := PullAsleep])
            else && |s.pulled| < |s.pushed| && s'.pulled == s.pulled + [s.pushed[|s.pulled|]] && s'.pushed == s.pushed
                 && s.items == [s.pushed[|s.pulled|]] + s'.items
                 && |s'.users| == |s.users| && s'.users[t] == Outside
                 && (forall u :: 0 <= u < |s.users| ==> !Sleeps(s'.users[u]))
  {
    hide WakeAll;
  }

  /** A thread outside can make a call, a woken one goes on, and a sleeping one can be woken without cause. */
  predicate Possible(s: Monitor, e: Event) {
    && e.t < |s.users|
    && match e
       case CallPush(t, _) => s.users[t] == Outside
       case CallPull(t) => s.users[t] == Outside
       case Resume(t) => IsWoken(s.users[t])
       case Spurious(t) => Sleeps(s.users[t])
  }

  /** What a user may cost: a return and the broadcast with it if inside, a turn if woken. */
  function Weight(u: User, broadcast: nat): nat {
    if u == Outside then 0 else if IsWoken(u) then broadcast + 3 else broadcast + 2
  }

  function Weights(us: seq<User>, broadcast: nat): nat {
    if us == [] then 0 else Weight(us[0], broadcast) + Weights(us[1..], broadcast)
  }

  lemma {:induction false} WeightsUpdate(us: seq<User>, t: nat, u: User, broadcast: nat)
    requires t < |us|
    ensures Weights(us[t := u], broadcast) == Weights(us, broadcast) - Weight(us[t], broadcast) + Weight(u, broadcast)
  {
    if t == 0 {
      assert us[t := u][1..] == us[1..];
    } else {
      WeightsUpdate(us[1..], t - 1, u, broadcast);
      assert us[t := u][1..] == us[1..][t - 1 := u];
    }
  }

  lemma {:induction false} WeightsWake(us: seq<User>, broadcast: nat)
    ensures Weights(WakeAll(us), broadcast) <= Weights(us, broadcast) + |us|
  {
    if us != [] {
      WeightsWake(us[1..], broadcast);
    }
  }

  /** The steps an event allows for: a call its own and those of its broadcast, a spurious wakeup one more turn. */
  function Allowance(e: Event, threads: nat): nat {
    match e case Resume(_) => 0 case Spurious(_) => 2 case _ => threads + 4
  }

  lemma PossibleDecreases(s: Monitor, e: Event)
    requires Possible(s, e)
    ensures var s' := Step(s, e); var n := |s.users|;
            |s'.users| == n && 1 + Weights(s'.users, n) <= Weights(s.users, n) + Allowance(e, n)
  {
    hide WakeAll, Weights;
    var n, u := |s.users|, Step(s, e).users[e.t];
    WeightsUpdate(s.users, e.t, u, n);
    WeightsWake(s.users, n);
    WeightsUpdate(WakeAll(s.users), e.t, u, n);
  }

  ghost predicate Schedule(s: Monitor, events: seq<Event>)
    decreases |events|
  {
    events == [] || (Possible(s, events[0]) && Schedule(Step(s, events[0]), events[1..]))
  }

  function Allowances(events: seq<Event>, threads: nat): nat {
    if events == [] then 0 else Allowance(events[0], threads) + Allowances(events[1..], threads)
  }

  lemma {:induction false} SchedulesEnd(s: Monitor, events: seq<Event>)
    requires Schedule(s, events)
    ensures |events| <= Weights(s.users, |s.users|) + Allowances(events, |s.users|)
    decreases |events|
  {
    hide Step, Possible, Weights;
    if events == [] {
    } else {
      PossibleDecreases(s, events[0]);
      SchedulesEnd(Step(s, events[0]), events[1..]);
    }
  }

  function Initial(maxSize: int, threads: nat): Monitor {
    Monitor(maxSize, [], seq(threads, _ => Outside), [], [])
  }

  lemma InitialOk(maxSize: int, threads: nat)
    ensures MonitorInv(Initial(maxSize, threads))
  {
  }

  lemma {:induction false} NobodyInside(us: seq<User>, broadcast: nat)
    requires forall t :: 0 <= t < |us| ==> us[t] == Outside
    ensures Weights(us, broadcast) == 0
  {
    if us != [] {
      NobodyInside(us[1..], broadcast);
    }
  }

  /**
    Whatever the calls and the schedule: between calls and spurious wakeups it cannot go on for ever, and where no
    woken thread is left all that wait are pushes to a full queue, or all are pulls from an empty one.
   */
  lemma CallsAreServed(maxSize: int, threads: nat, events: seq<Event>)
    requires Schedule(Initial(maxSize, threads), events)
    ensures |events| <= Allowances(events, threads)
    ensures var s := Run(Initial(maxSize, threads), events);
            (forall t :: 0 <= t < |s.users| ==> !IsWoken(s.users[t])) ==>
              || (forall t :: 0 <= t < |s.users| ==> s.users[t] == Outside)
              || (|s.pushed| == |s.pulled| + maxSize && maxSize > 0 &&
                    forall t :: 0 <= t < |s.users| ==> s.users[t] == Outside || s.users[t].PushAsleep?)
              || (s.pushed == s.pulled &&
                    forall t :: 0 <= t < |s.users| ==> s.users[t] == Outside || s.users[t] == PullAsleep)
  {
    var s0 := Initial(maxSize, threads);
    InitialOk(maxSize, threads);
    NobodyInside(s0.users, threads);
    SchedulesEnd(s0, events);
    PulledIsPrefix(s0, events);
    SameBound(s0, events);
  }

  lemma {:induction false} SameBound(s: Monitor, events: seq<Event>)
    ensures Run(s, events).maxSize == s.maxSize
    decreases |events|
  {
    if events != [] {
      SameBound(Step(s, events[0]), events[1..]);
    }
  }
}

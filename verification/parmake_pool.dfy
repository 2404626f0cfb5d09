/**
  The worker pool of parallel_make/parmake.c (run_status, solve): any number of threads, two locks and one condition
  variable whose broadcast is made under g_lock while the waiters wait under rules_lock. Each critical section under
  g_lock is one step; rules_lock is held by the worker that scans. Reading the status of the last pending rule and going
  to sleep are two steps, so a broadcast can fall between them.
 */
module WorkerPool {
  import opened RuleGraph
  import opened Wrappers

  datatype Status = Default | Valid | Invalid

  datatype Code = Err | NotFinished | RunImm | SatNoRun | AlreadyDone

  /**
    Where a thread of `solve` is: `Scan(i)` has read the status of the first `i` pending rules, and waits next when
    these are all.
   */
  datatype Worker =
    | Idle
    | Scan(i: nat)
    | Running(target: Key)
    | Finish(target: Key, st: Status)
    | Sleeping
    | Woken
    | Exited

  /** The rules in the order `get_rules` listed them, the targets that are files, and those whose commands succeed. */
  datatype Config = Config(g: Graph, order: seq<Key>, files: set<Key>, succeeds: set<Key>)

  datatype Pool = Pool(rules: seq<Key>, state: map<Key, Status>, workers: seq<Worker>, started: seq<Key>)

  datatype Event = Turn(w: nat) | Spurious(w: nat)

  ghost predicate ConfigOk(c: Config) {
    && Ordered(c.g, c.order)
    && (forall v :: v in c.order && c.g[v] != [] ==> v !in c.files)
  }

  // ---- run_status ----

  function FirstNotValid(state: map<Key, Status>, deps: seq<Key>): (i: nat)
    requires forall d :: d in deps ==> d in state
    ensures i <= |deps|
    ensures i < |deps| ==> state[deps[i]] != Valid
    ensures forall j :: 0 <= j < i ==> state[deps[j]] == Valid
  {
    if deps == [] || state[deps[0]] != Valid then 0 else 1 + FirstNotValid(state, deps[1..])
  }

  function RunStatus(c: Config, state: map<Key, Status>, target: Key): Code
    requires target in c.g && target in state && (forall d :: d in c.g[target] ==> d in state)
  {
    if state[target] != Default then AlreadyDone
    else if c.g[target] != [] then
      var i := FirstNotValid(state, c.g[target]);
      if i == |c.g[target]| then RunImm else if state[c.g[target][i]] == Default then NotFinished else Err
    else if target in c.files then SatNoRun else RunImm
  }

  // ---- solve ----

  /** Nobody holds rules_lock. */
  predicate LockFree(s: Pool) {
    forall w :: 0 <= w < |s.workers| ==> !s.workers[w].Scan?
  }

  function Without(rules: seq<Key>, i: nat): seq<Key>
    requires i < |rules|
  {
    rules[..i] + rules[i + 1..]
  }

  /** `pthread_cond_broadcast`. */
  function WakeAll(workers: seq<Worker>): (r: seq<Worker>)
    ensures |r| == |workers|
    ensures forall w :: 0 <= w < |r| ==> r[w] == if workers[w].Sleeping? then Woken else workers[w]
  {
    if workers == [] then [] else [if workers[0].Sleeping? then Woken else workers[0]] + WakeAll(workers[1..])
  }

  /** What the scan reads must exist. */
  predicate Readable(c: Config, s: Pool) {
    && (forall v :: v in c.order ==> v in c.g && v in s.state && (forall d :: d in c.g[v] ==> d in c.order))
    && (forall v :: v in s.rules ==> v in c.order)
    && (forall w :: 0 <= w < |s.workers| && s.workers[w].Scan? ==> s.workers[w].i <= |s.rules| && s.rules != [])
  }

  function ScanStep(c: Config, s: Pool, w: nat): Pool
    requires Readable(c, s) && w < |s.workers| && s.workers[w].Scan?
  {
    var i := s.workers[w].i;
    if i == |s.rules| then s.(workers := s.workers[w := Sleeping]) else
    var target := s.rules[i];
    assert target in s.rules;
    match RunStatus(c, s.state, target)
    case RunImm => Pool(Without(s.rules, i), s.state, s.workers[w := Running(target)], s.started + [target])
    case SatNoRun => Pool(Without(s.rules, i), s.state, s.workers[w := Finish(target, Valid)], s.started)
    case Err => Pool(Without(s.rules, i), s.state, s.workers[w := Finish(target, Invalid)], s.started)
    case AlreadyDone => Pool(Without(s.rules, i), s.state, s.workers[w := Idle], s.started)
    case NotFinished => s.(workers := s.workers[w := Scan(i + 1)])
  }

  /** The next step of a thread; None while it is blocked or has exited. */
  function Next(c: Config, s: Pool, w: nat): Option<Pool>
    requires Readable(c, s) && w < |s.workers|
  {
    match s.workers[w]
    case Idle =>
      if !LockFree(s) then None
      else Some(s.(workers := s.workers[w := if s.rules == [] then Exited else Scan(0)]))
    case Scan(_) => Some(ScanStep(c, s, w))
    case Running(t) => Some(s.(workers := s.workers[w := Finish(t, if t in c.succeeds then Valid else Invalid)]))
    case Finish(t, st) => Some(Pool(s.rules, s.state[t := st], WakeAll(s.workers)[w := Idle], s.started))
    case Woken => if LockFree(s) then Some(s.(workers := s.workers[w := Idle])) else None
    case Sleeping => None
    case Exited => None
  }

  function Apply(c: Config, s: Pool, e: Event): Option<Pool>
    requires Readable(c, s)
  {
    if e.w >= |s.workers| then None
    else if e.Turn? then Next(c, s, e.w)
    else if s.workers[e.w].Sleeping? then Some(s.(workers := s.workers[e.w := Woken])) else None
  }

  // ---- the sequential meaning ----

  lemma DepsRank(c: Config, v: Key)
    requires ConfigOk(c) && v in c.order
    ensures v in c.g && (forall d :: d in c.g[v] ==> d in c.order && Rank(c.order, d) < Rank(c.order, v))
  {
    forall d | d in c.g[v]
      ensures d in c.order && Rank(c.order, d) < Rank(c.order, v)
    {
      RankBelow(c.g, c.order, v, d);
    }
  }

  /** The final state of a rule in a sequential build. */
  ghost function Meaning(c: Config, v: Key): (r: Status)
    requires ConfigOk(c) && v in c.order
    ensures r != Default
    decreases Rank(c.order, v)
  {
    DepsRank(c, v);
    if c.g[v] == [] && v in c.files then Valid
    else if forall d :: d in c.g[v] ==> Meaning(c, d) == Valid
    then if v in c.succeeds then Valid else Invalid
    else Invalid
  }

  /** Whether a sequential build runs the commands of a rule: it is no file, and all its dependencies succeed. */
  ghost predicate ShouldRun(c: Config, v: Key)
    requires ConfigOk(c) && v in c.order
  {
    DepsRank(c, v);
    !(c.g[v] == [] && v in c.files) && forall d :: d in c.g[v] ==> Meaning(c, d) == Valid
  }

  lemma MeaningOfRun(c: Config, v: Key)
    requires ConfigOk(c) && v in c.order
    ensures ShouldRun(c, v) ==> Meaning(c, v) == if v in c.succeeds then Valid else Invalid
    ensures !ShouldRun(c, v) ==> Meaning(c, v) == if c.g[v] == [] && v in c.files then Valid else Invalid
  {
  }

  /** What a build leaves behind: the states of the rules, and the rules whose commands ran, in order. */
  datatype Built = Built(state: map<Key, Status>, ran: seq<Key>)

  /** Building one rule whose dependencies were built before. */
  function BuildRule(c: Config, b: Built, v: Key): Built {
    var deps := if v in c.g then c.g[v] else [];
    if deps == [] && v in c.files then b.(state := b.state[v := Valid])
    else if forall d :: d in deps ==> d in b.state && b.state[d] == Valid
    then Built(b.state[v := if v in c.succeeds then Valid else Invalid], b.ran + [v])
    else b.(state := b.state[v := Invalid])
  }

  /** A build with one thread: the first `k` rules of the list, one after the other. */
  function Sequential(c: Config, k: nat): Built
    requires k <= |c.order|
  {
    if k == 0 then Built(map[], []) else BuildRule(c, Sequential(c, k - 1), c.order[k - 1])
  }

  /** After `k` rules: exactly those have their meaning, and exactly those that should run have run, once. */
  ghost predicate BuiltOk(c: Config, k: nat, b: Built)
    requires ConfigOk(c) && k <= |c.order|
  {
    && (forall v :: v in b.state <==> v in c.order[..k])
    && (forall v :: v in c.order[..k] ==> b.state[v] == Meaning(c, v))
    && Distinct(b.ran) && (forall v :: v in b.ran <==> v in c.order[..k] && ShouldRun(c, v))
  }

  /** The meaning of a rule is what the one-thread build makes of it. */
  lemma {:induction false} SequentialIsMeaning(c: Config, k: nat)
    requires ConfigOk(c) && k <= |c.order|
    ensures BuiltOk(c, k, Sequential(c, k))
  {
    hide BuiltOk, ConfigOk, BuildRule;
    if k == 0 {
      NothingBuilt(c);
    } else {
      SequentialIsMeaning(c, k - 1);
      NextBuilt(c, k - 1, Sequential(c, k - 1));
    }
  }

  lemma NothingBuilt(c: Config)
    requires ConfigOk(c)
    ensures BuiltOk(c, 0, Built(map[], []))
  {
    hide ConfigOk;
  }

  lemma PrefixDeps(c: Config, k: nat)
    requires ConfigOk(c) && k < |c.order|
    ensures c.order[..k + 1] == c.order[..k] + [c.order[k]] && c.order[k] !in c.order[..k] && c.order[k] in c.g
    ensures forall d :: d in c.g[c.order[k]] ==> d in c.order[..k]
  {
  }

  lemma BuiltRule(c: Config, k: nat, b: Built)
    requires ConfigOk(c) && k < |c.order| && BuiltOk(c, k, b)
    ensures var v := c.order[k];
            BuildRule(c, b, v) == Built(b.state[v := Meaning(c, v)], if ShouldRun(c, v) then b.ran + [v] else b.ran)
  {
    var v := c.order[k];
    PrefixDeps(c, k);
    MeaningOfRun(c, v);
    hide Meaning, ConfigOk;
  }

  lemma NextBuilt(c: Config, k: nat, b: Built)
    requires ConfigOk(c) && k < |c.order| && BuiltOk(c, k, b)
    ensures BuiltOk(c, k + 1, BuildRule(c, b, c.order[k]))
  {
    PrefixDeps(c, k);
    BuiltRule(c, k, b);
    hide Meaning, ShouldRun, ConfigOk, BuildRule;
  }

  // ---- the invariant ----

  predicate Holds(p: Worker, v: Key) {
    (p.Running? || p.Finish?) && p.target == v
  }

  predicate Busy(p: Worker) { p.Running? || p.Finish? }

  /** Awake and not holding rules_lock. */
  predicate Awake(p: Worker) { p.Idle? || p.Woken? || Busy(p) }

  ghost predicate Held(s: Pool, v: Key) {
    exists w :: 0 <= w < |s.workers| && Holds(s.workers[w], v)
  }

  /** The pending rules are distinct rules of the list, dependencies first. */
  ghost predicate RulesOk(c: Config, s: Pool) {
    && Readable(c, s) && Distinct(s.rules) && s.state.Keys == (set v | v in c.order)
    && (forall i, d :: 0 <= i < |s.rules| && d in c.g[s.rules[i]] && d in s.rules ==> d in s.rules[..i])
  }

  /** Every rule is pending, held by one worker, or finished with its sequential meaning. */
  ghost predicate StatesOk(c: Config, s: Pool)
    requires ConfigOk(c) && RulesOk(c, s)
  {
    && (forall v :: v in s.rules ==> s.state[v] == Default && !Held(s, v))
    && (forall v :: v in c.order && v !in s.rules && !Held(s, v) ==> s.state[v] == Meaning(c, v))
    && (forall v :: v in c.order && Held(s, v) ==> s.state[v] == Default)
  }

  ghost predicate WorkersOk(c: Config, s: Pool)
    requires ConfigOk(c)
  {
    && (forall w :: 0 <= w < |s.workers| && Busy(s.workers[w]) ==> s.workers[w].target in c.order)
    && (forall w, v :: 0 <= w < v < |s.workers| && Busy(s.workers[w]) && Busy(s.workers[v]) ==>
                         s.workers[w].target != s.workers[v].target)
    && (forall w :: 0 <= w < |s.workers| && s.workers[w].Running? ==> ShouldRun(c, s.workers[w].target))
    && (forall w :: 0 <= w < |s.workers| && s.workers[w].Finish? ==> s.workers[w].st == Meaning(c, s.workers[w].target))
  }

  /** Commands were started once for exactly the rules that should run and are no longer pending. */
  ghost predicate StartedOk(c: Config, s: Pool)
    requires ConfigOk(c)
  {
    && Distinct(s.started)
    && (forall v :: v in s.started <==> v in c.order && v !in s.rules && ShouldRun(c, v))
  }

  ghost predicate SomeoneElseAwake(s: Pool, w: nat) {
    exists v :: 0 <= v < |s.workers| && v != w && Awake(s.workers[v])
  }

  ghost predicate SomeoneAwake(s: Pool) {
    exists v :: 0 <= v < |s.workers| && (Awake(s.workers[v]) || s.workers[v].Scan?)
  }

  ghost predicate SomeoneBusy(s: Pool) {
    exists v :: 0 <= v < |s.workers| && Busy(s.workers[v])
  }

  /** At most one worker scans; one that scans past the first rule is not the only one awake. */
  ghost predicate LockOk(s: Pool) {
    && (forall w, v :: 0 <= w < v < |s.workers| ==> !(s.workers[w].Scan? && s.workers[v].Scan?))
    && (forall w :: 0 <= w < |s.workers| && s.workers[w].Scan? && s.workers[w].i > 0 ==> SomeoneElseAwake(s, w))
  }

  /** No wakeup that matters is lost. */
  ghost predicate ProgressOk(s: Pool) {
    && (s.rules != [] ==> SomeoneAwake(s))
    && (s.rules == [] && (exists w :: 0 <= w < |s.workers| && s.workers[w].Sleeping?) ==> SomeoneBusy(s))
    && (forall w :: 0 <= w < |s.workers| && s.workers[w].Exited? ==> s.rules == [])
  }

  ghost predicate PoolInv(c: Config, s: Pool) {
    && ConfigOk(c) && |s.workers| > 0
    && RulesOk(c, s) && StatesOk(c, s) && WorkersOk(c, s) && StartedOk(c, s) && LockOk(s) && ProgressOk(s)
  }

  /** The list of `get_rules`, all states 0, `n` threads about to start. */
  function Initial(c: Config, n: nat): Pool {
    Pool(c.order, map v | v in c.order :: Default, seq(n, _ => Idle), [])
  }

  lemma InitialOk(c: Config, n: nat)
    requires ConfigOk(c) && n > 0
    ensures PoolInv(c, Initial(c, n))
  {
    var s := Initial(c, n);
    forall v | v in c.order
      ensures v in c.g && (forall d :: d in c.g[v] ==> d in c.order)
    {
      DepsRank(c, v);
    }
    assert s.workers[0].Idle?;
    forall i, d | 0 <= i < |s.rules| && d in c.g[s.rules[i]] && d in s.rules
      ensures d in s.rules[..i]
    {
      assert s.rules[i] in c.order;
    }
  }
}

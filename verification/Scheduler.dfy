/** The round-robin scheduler driven by the timer's quantum. */
module Scheduler {
  import opened Bytes
  import opened Arithmetic

  const MAX_TASKS: nat := 64
  const QUANTUM: nat := 10
  const BOOTSTRAP_ID: u64 := 1
  const BOOTSTRAP_PRIORITY: u32 := 128

  datatype TaskState = Unused | Ready | Running | Blocked | Sleeping | Exited

  datatype Task = Task(id: u64, runtime: u64, priority: u32, state: TaskState)

  const CLEAR: Task := Task(0, 0, 0, Unused)

  /** The tasks in use, the current one, and the scheduler's and the timer's tick
      counters. */
  datatype State = State(tasks: seq<Task>, current: nat, ticks: u64, timer: u64)

  function Next(x: u64): u64 { (x + 1) % WRAP64 }

  function Init(timer: u64): State {
    State([Task(BOOTSTRAP_ID, 0, BOOTSTRAP_PRIORITY, Running)], 0, 0, timer)
  }

  function Tick(s: State): State {
    var t := s.(ticks := Next(s.ticks));
    if s.current < |s.tasks| && s.tasks[s.current].state == Running
    then t.(tasks := s.tasks[s.current := s.tasks[s.current].(runtime := Next(s.tasks[s.current].runtime))])
    else t
  }

  predicate Known(tasks: seq<Task>, id: u64) {
    exists i: nat :: i < |tasks| && tasks[i].state != Unused && tasks[i].id == id
  }

  ghost function Add(s: State, id: u64, priority: u32): (State, int) {
    if |s.tasks| >= MAX_TASKS || id == 0 then (s, -1)
    else if Known(s.tasks, id) then (s, -2)
    else (s.(tasks := s.tasks + [Task(id, 0, priority, Ready)]), 0)
  }

  predicate Runnable(t: Task) { t.state == Ready || t.state == Running }

  /** The first runnable task from `step` positions after the current one. */
  function Candidate(s: State, step: nat): (r: Option<nat>)
    requires 0 < |s.tasks|
    ensures r.Some? ==> r.value < |s.tasks| && Runnable(s.tasks[r.value])
    decreases |s.tasks| + 1 - step
  {
    if step > |s.tasks| then None
    else
      var c := (s.current + step) % |s.tasks|;
      if Runnable(s.tasks[c]) then Some(c) else Candidate(s, step + 1)
  }

  function Switch(s: State, c: nat): State
    requires s.current < |s.tasks| && c < |s.tasks|
  {
    var parked := s.tasks[s.current := s.tasks[s.current].(state := Ready)];
    s.(tasks := parked[c := parked[c].(state := Running)], current := c)
  }

  function PickNext(s: State): State {
    if s.current >= |s.tasks| then s
    else
      match Candidate(s, 1)
      case None => s
      case Some(c) => Switch(s, c)
  }

  function TimerTick(s: State): State {
    var t := Tick(s.(timer := Next(s.timer)));
    if t.timer % QUANTUM == 0 && |t.tasks| > 1 then PickNext(t) else t
  }

  // ---- Invariant ------------------------------------------------------------------------

  function Total(tasks: seq<Task>): nat {
    if tasks == [] then 0 else Total(tasks[..|tasks| - 1]) + tasks[|tasks| - 1].runtime
  }

  /** Exactly the current task is running and all others are ready; identifiers
      are distinct and non-zero; the runtimes add up to the ticks, modulo the
      64-bit counters. */
  ghost predicate Good(s: State) {
    && 0 < |s.tasks| <= MAX_TASKS && s.current < |s.tasks|
    && (forall i: nat | i < |s.tasks| :: s.tasks[i].state == if i == s.current then Running else Ready)
    && (forall i: nat | i < |s.tasks| :: s.tasks[i].id != 0)
    && (forall i: nat, j: nat | i < j < |s.tasks| :: s.tasks[i].id != s.tasks[j].id)
    && Total(s.tasks) % WRAP64 == s.ticks
  }

  lemma {:induction false} TotalUpdate(tasks: seq<Task>, i: nat, t: Task)
    requires i < |tasks|
    ensures Total(tasks[i := t]) == Total(tasks) - tasks[i].runtime + t.runtime
    decreases |tasks|
  {
    var last := |tasks| - 1;
    var init := tasks[..last];
    if i == last {
      assert tasks[i := t][..last] == init;
    } else {
      TotalUpdate(init, i, t);
      assert tasks[i := t][..last] == init[i := t];
    }
  }

  lemma TotalAppend(tasks: seq<Task>, t: Task)
    ensures Total(tasks + [t]) == Total(tasks) + t.runtime
  {}

  lemma TickGood(s: State)
    requires Good(s)
    ensures Good(Tick(s))
  {
    hide Total;
    var c := s.current;
    var t := s.tasks[c].(runtime := Next(s.tasks[c].runtime));
    TotalUpdate(s.tasks, c, t);
    PartOfTotal(s.tasks, c);
    NextModulo(Total(s.tasks), s.tasks[c].runtime);
  }

  lemma {:induction false} PartOfTotal(tasks: seq<Task>, i: nat)
    requires i < |tasks|
    ensures tasks[i].runtime <= Total(tasks)
    decreases |tasks|
  {
    if i < |tasks| - 1 { PartOfTotal(tasks[..|tasks| - 1], i); }
  }

  lemma NextModulo(total: nat, r: u64)
    requires r <= total
    ensures (total - r + Next(r)) % WRAP64 == (total % WRAP64 + 1) % WRAP64
  {
    AddOneModulo(total, WRAP64);
    if r + 1 == WRAP64 {
      Shift(total + 1 - WRAP64, WRAP64, 1);
    } else {
      Unique(r + 1, WRAP64, 0, r + 1);
    }
  }

  /** The next index round the table. */
  function After(c: nat, n: nat): nat { if c + 1 < n then c + 1 else 0 }

  lemma AfterIsModulo(c: nat, n: nat)
    requires c < n
    ensures (c + 1) % n == After(c, n)
  {}

  lemma PickIsNext(s: State)
    requires Good(s)
    ensures PickNext(s) == Switch(s, After(s.current, |s.tasks|))
  {
    AfterIsModulo(s.current, |s.tasks|);
    assert Runnable(s.tasks[After(s.current, |s.tasks|)]);
  }

  lemma PickGood(s: State)
    requires Good(s)
    ensures Good(PickNext(s))
  {
    hide Candidate, PickNext;
    PickIsNext(s);
    var c := After(s.current, |s.tasks|);
    var parked := s.tasks[s.current := s.tasks[s.current].(state := Ready)];
    TotalUpdate(s.tasks, s.current, s.tasks[s.current].(state := Ready));
    TotalUpdate(parked, c, parked[c].(state := Running));
  }

  lemma AddGood(s: State, id: u64, priority: u32)
    requires Good(s)
    ensures Good(Add(s, id, priority).0)
    ensures var (t, code) := Add(s, id, priority); var known := exists i: nat :: i < |s.tasks| && s.tasks[i].id == id;
      && code == (if |s.tasks| >= 64 || id == 0 then -1 else if known then -2 else 0)
      && t == (if code == 0 then s.(tasks := s.tasks + [Task(id, 0, priority, Ready)]) else s)
  {
    TotalAppend(s.tasks, Task(id, 0, priority, Ready));
    if !Known(s.tasks, id) {
      forall i: nat | i < |s.tasks| ensures s.tasks[i].id != id { assert s.tasks[i].state != Unused; }
    }
  }

  // ---- Runs -----------------------------------------------------------------------------------

  datatype Op = OpTick | OpTimer | OpPick | OpAdd(id: u64, priority: u32)

  ghost function Step(s: State, op: Op): State {
    match op
    case OpTick => Tick(s)
    case OpTimer => TimerTick(s)
    case OpPick => PickNext(s)
    case OpAdd(id, priority) => Add(s, id, priority).0
  }

  ghost function Run(s: State, ops: seq<Op>): State
    decreases |ops|
  {
    if ops == [] then s else Run(Step(s, ops[0]), ops[1..])
  }

  lemma StepGood(s: State, op: Op)
    requires Good(s)
    ensures Good(Step(s, op))
  {
    match op
    case OpTick => TickGood(s);
    case OpTimer =>
      TickGood(s.(timer := Next(s.timer)));
      PickGood(Tick(s.(timer := Next(s.timer))));
    case OpPick => PickGood(s);
    case OpAdd(id, priority) => AddGood(s, id, priority);
  }

  lemma {:induction false} RunGood(s: State, ops: seq<Op>)
    requires Good(s)
    ensures Good(Run(s, ops))
    decreases |ops|
  {
    if ops != [] {
      StepGood(s, ops[0]);
      RunGood(Step(s, ops[0]), ops[1..]);
    }
  }

  lemma InitGood(timer: u64)
    ensures Good(Init(timer)) && Init(timer).tasks[0].id == 1 && Init(timer).tasks[0].priority == 128
  {
    assert Total(Init(timer).tasks[..0]) == 0;
  }

  // ---- Nobody waits for more than 64 picks --------------------------------------------------

  /** The operation searches for the next task: an explicit pick, or a timer
      interrupt that ends a quantum while there is more than one task. */
  predicate PicksNow(s: State, op: Op) {
    op.OpPick? || (op.OpTimer? && Next(s.timer) % QUANTUM == 0 && |s.tasks| > 1)
  }

  ghost function Picks(s: State, ops: seq<Op>): nat
    decreases |ops|
  {
    if ops == [] then 0
    else (if PicksNow(s, ops[0]) then 1 else 0) + Picks(Step(s, ops[0]), ops[1..])
  }

  /** How far round the full table of 64 the current index must still go to reach
      `t`; adding tasks never changes it. */
  function Distance(s: State, t: nat): int {
    if t > s.current then t - s.current else MAX_TASKS - s.current + t
  }

  lemma PickApproaches(s: State, t: nat)
    requires Good(s) && t < |s.tasks|
    ensures var u := PickNext(s); |u.tasks| == |s.tasks| && (u.current == t || Distance(u, t) < Distance(s, t))
  {
    hide Candidate, PickNext;
    PickIsNext(s);
  }

  lemma TimerKeepsGood(s: State, x: u64)
    requires Good(s)
    ensures Good(s.(timer := x))
  {}

  /** Every picking operation brings the current index nearer to `t`, and no other
      operation moves it. */
  lemma StepApproaches(s: State, op: Op, t: nat)
    requires Good(s) && t < |s.tasks|
    ensures var u := Step(s, op);
      && |u.tasks| >= |s.tasks|
      && (if PicksNow(s, op) then u.current == t || Distance(u, t) < Distance(s, t) else u.current == s.current)
  {
    hide Candidate, PickNext, Good;
    if op.OpTimer? {
      TimerKeepsGood(s, Next(s.timer));
      TickGood(s.(timer := Next(s.timer)));
      PickApproaches(Tick(s.(timer := Next(s.timer))), t);
    } else if op.OpPick? {
      PickApproaches(s, t);
    }
  }

  /** Whatever ticks and additions happen in between, a present task becomes the
      current one before 64 picks have gone by, timer-driven ones included. */
  lemma {:induction false} PickedWithin(s: State, ops: seq<Op>, t: nat)
    requires Good(s) && t < |s.tasks|
    requires Picks(s, ops) >= Distance(s, t)
    ensures exists k: nat :: 0 < k <= |ops| && Run(s, ops[..k]).current == t
    decreases |ops|
  {
    hide Step, Good;
    assert Distance(s, t) > 0 by { CurrentInTable(s); }
    var u := Step(s, ops[0]);
    var rest := ops[1..];
    StepGood(s, ops[0]);
    StepApproaches(s, ops[0], t);
    assert Run(s, ops[..1]) == u by { assert ops[..1][1..] == []; }
    if u.current != t {
      PickedWithin(u, rest, t);
      var k: nat :| 0 < k <= |rest| && Run(u, rest[..k]).current == t;
      assert ops[..k + 1][1..] == rest[..k];
      assert Run(s, ops[..k + 1]).current == t;
    }
  }

  lemma CurrentInTable(s: State)
    requires Good(s)
    ensures s.current < MAX_TASKS
  {}

  /** In particular 64 picks always suffice. */
  lemma PickedWithin64(s: State, ops: seq<Op>, t: nat)
    requires Good(s) && t < |s.tasks| && Picks(s, ops) >= 64
    ensures exists k: nat :: 0 < k <= |ops| && Run(s, ops[..k]).current == t
  {
    PickedWithin(s, ops, t);
  }

  function Timers(ops: seq<Op>): nat {
    if ops == [] then 0 else (if ops[0].OpTimer? then 1 else 0) + Timers(ops[1..])
  }

  lemma TimerAdvances(s: State, op: Op)
    ensures Step(s, op).timer == if op.OpTimer? then Next(s.timer) else s.timer
  {
    hide Candidate;
  }

  /** A step of the counter either ends a quantum or moves one tick into it, also
      where the counter wraps. */
  lemma PhaseAdvances(timer: u64)
    ensures var next := Next(timer) % QUANTUM; next == 0 || next == timer % QUANTUM + 1
  {
    if timer + 1 < WRAP64 { Unique(timer + 1, WRAP64, 0, timer + 1); }
  }

  /** Ten timer interrupts bring at least one pick, even where the 64-bit counter
      wraps in the middle of a quantum. */
  lemma {:induction false} PicksPerTimer(s: State, ops: seq<Op>)
    requires Good(s) && |s.tasks| > 1
    ensures 10 * Picks(s, ops) + 9 >= Timers(ops) + s.timer % 10
    decreases |ops|
  {
    if ops != [] {
      hide Step, Good, Next;
      StepGood(s, ops[0]);
      StepApproaches(s, ops[0], 0);
      TimerAdvances(s, ops[0]);
      PhaseAdvances(s.timer);
      PicksPerTimer(Step(s, ops[0]), ops[1..]);
    }
  }

  /** Whatever tasks are added meanwhile, a present task becomes the current one
      within 640 timer interrupts. */
  lemma {:induction false} ScheduledWithin(s: State, ops: seq<Op>, t: nat)
    requires Good(s) && t < |s.tasks| && Timers(ops) >= 640
    ensures exists k: nat :: 0 < k <= |ops| && Run(s, ops[..k]).current == t
  {
    if |s.tasks| > 1 {
      PicksPerTimer(s, ops);
      PickedWithin(s, ops, t);
    } else {
      hide Step;
      StepGood(s, ops[0]);
      assert ops[..1][1..] == [];
      assert Run(s, ops[..1]) == Step(s, ops[0]);
      OnlyTaskStays(s, ops[0]);
    }
  }

  lemma OnlyTaskStays(s: State, op: Op)
    requires Good(s) && |s.tasks| == 1
    ensures Step(s, op).current == 0
  {
    hide Candidate, PickNext;
    PickIsNext(s);
  }

  // ---- Fairness ---------------------------------------------------------------------------------

  function Clamp(x: int): nat { if x < 0 then 0 else if x > QUANTUM then QUANTUM else x }

  /** What the task `i` places after the first one has gained after T ticks: one
      quantum for each whole round of n quanta, and its share of the last. */
  function Gain(n: nat, i: nat, t: nat): nat
    requires n > 0
  {
    QUANTUM * (t / (QUANTUM * n)) + Clamp(t % (QUANTUM * n) - QUANTUM * i)
  }

  lemma Split(n: nat, q: nat, j: nat, r: nat)
    requires n > 0 && j < n && r < QUANTUM
    ensures var t := QUANTUM * (n * q + j) + r;
      t / (QUANTUM * n) == q && t % (QUANTUM * n) == QUANTUM * j + r
  {
    var t, d := QUANTUM * (n * q + j) + r, QUANTUM * n;
    assert t == q * d + (QUANTUM * j + r);
    Unique(t, d, q, QUANTUM * j + r);
  }

  lemma GainAt(n: nat, i: nat, q: nat, j: nat, r: nat)
    requires n > 0 && j < n && r < QUANTUM
    ensures Gain(n, i, QUANTUM * (n * q + j) + r) == QUANTUM * q + Clamp(QUANTUM * j + r - QUANTUM * i)
  {
    Split(n, q, j, r);
  }

  /** One more tick is gained by the task whose turn it is, and by no other. */
  lemma GainStep(n: nat, i: nat, t: nat)
    requires n > 0 && i < n
    ensures Gain(n, i, t + 1) == Gain(n, i, t) + if i == t / QUANTUM % n then 1 else 0
  {
    hide Gain;
    var w, r := t / QUANTUM, t % QUANTUM;
    var q, j := w / n, w % n;
    Division(w, n);
    GainStepAt(n, i, q, j, r);
  }

  lemma GainStepAt(n: nat, i: nat, q: nat, j: nat, r: nat)
    requires n > 0 && i < n && j < n && r < QUANTUM
    ensures var t := QUANTUM * (n * q + j) + r;
      Gain(n, i, t + 1) == Gain(n, i, t) + if i == j then 1 else 0
  {
    hide Gain, Clamp;
    ClampFacts(i, j, r);
    GainAt(n, i, q, j, r);
    if r + 1 < QUANTUM {
      GainAt(n, i, q, j, r + 1);
    } else if j + 1 < n {
      GainAt(n, i, q, j + 1, 0);
    } else {
      GainAt(n, i, q + 1, 0, 0);
      assert n * (q + 1) == n * q + n;
    }
  }

  lemma ClampFacts(i: nat, j: nat, r: nat)
    requires r < QUANTUM
    ensures Clamp(QUANTUM * j + r + 1 - QUANTUM * i) == Clamp(QUANTUM * j + r - QUANTUM * i) + if i == j then 1 else 0
    ensures Clamp(-(QUANTUM * i)) == 0
    ensures i <= j ==> Clamp(QUANTUM * j + QUANTUM - QUANTUM * i) == QUANTUM
  {}

  function Ticks(s: State, t: nat): State {
    if t == 0 then s else TimerTick(Ticks(s, t - 1))
  }

  /** The index `i` places after `c` round a table of n. */
  function Place(c: nat, i: nat, n: nat): (k: nat)
    requires n > 0
    ensures k < n
  {
    (c + i) % n
  }

  /** Where the scheduler is after T ticks: the turn has moved on once per
      quantum, and each task has gained its share. */
  ghost predicate Fair(s: State, u: State, t: nat) {
    var n := |s.tasks|;
    && n > 0 && |u.tasks| == n && u.timer == t
    && u.current == Place(s.current, t / 10, n)
    && (forall i: nat | i < n :: GainedAt(s, u, i, t))
  }

  predicate GainedAt(s: State, u: State, i: nat, t: nat)
    requires |s.tasks| == |u.tasks| > 0
  {
    var k := Place(s.current, i, |s.tasks|);
    u.tasks[k].runtime == (s.tasks[k].runtime + Gain(|s.tasks|, i, t)) % WRAP64
  }

  /** With n >= 2 tasks and the timer at 0, after T timer ticks task c + i has
      gained exactly its share. */
  lemma {:induction false} FairShare(s: State, t: nat)
    requires Good(s) && |s.tasks| >= 2 && s.timer == 0 && t < WRAP64
    ensures Good(Ticks(s, t)) && Fair(s, Ticks(s, t), t)
    decreases t
  {
    hide Good, Fair, TimerTick;
    if t == 0 {
      FairStart(s);
    } else {
      FairShare(s, t - 1);
      FairStep(s, Ticks(s, t - 1), t - 1);
    }
  }

  lemma FairStart(s: State)
    requires Good(s) && s.timer == 0
    ensures Fair(s, s, 0)
  {
    var n := |s.tasks|;
    Small(s.current, n, 0);
    Split(n, 0, 0, 0);
    forall i: nat | i < n ensures GainedAt(s, s, i, 0) {}
  }

  /** What one timer tick does to the turn and to the runtimes. */
  lemma TimerShape(u: State)
    requires Good(u)
    ensures var w := TimerTick(u);
      && |w.tasks| == |u.tasks| && w.timer == Next(u.timer)
      && w.current == (if w.timer % QUANTUM == 0 && |u.tasks| > 1 then After(u.current, |u.tasks|) else u.current)
      && (forall k: nat | k < |u.tasks| ::
            w.tasks[k].runtime == if k == u.current then Next(u.tasks[k].runtime) else u.tasks[k].runtime)
  {
    hide Candidate, PickNext;
    var x := u.(timer := Next(u.timer));
    TickGood(x);
    PickIsNext(Tick(x));
  }

  lemma FairStep(s: State, u: State, t: nat)
    requires Good(s) && Good(u) && |s.tasks| >= 2 && t + 1 < WRAP64 && Fair(s, u, t)
    ensures Good(TimerTick(u)) && Fair(s, TimerTick(u), t + 1)
  {
    hide TimerTick, Gain, Clamp, Place, GainedAt, After;
    var n := |s.tasks|;
    var w := TimerTick(u);
    StepGood(u, OpTimer);
    assert Step(u, OpTimer) == w;
    TimerShape(u);
    Turn(s.current, n, t);
    Unique(t + 1, WRAP64, 0, t + 1);
    var later := t + 1;
    forall i: nat | i < n ensures GainedAt(s, w, i, later) {
      FairStepAt(s, u, w, i, t);
    }
  }

  lemma FairStepAt(s: State, u: State, w: State, i: nat, t: nat)
    requires |s.tasks| == |u.tasks| == |w.tasks| && i < |s.tasks| && s.current < |s.tasks|
    requires u.current == Place(s.current, t / 10, |s.tasks|) && GainedAt(s, u, i, t)
    requires forall k: nat | k < |u.tasks| ::
      w.tasks[k].runtime == if k == u.current then Next(u.tasks[k].runtime) else u.tasks[k].runtime
    ensures GainedAt(s, w, i, t + 1)
  {
    hide Gain, Place;
    var n := |s.tasks|;
    SamePlace(s.current, n, i, t / QUANTUM);
    GainStep(n, i, t);
    GainWraps(s.tasks[Place(s.current, i, n)].runtime, Gain(n, i, t));
  }

  lemma GainWraps(r: u64, g: nat)
    ensures Next((r + g) % WRAP64) == (r + (g + 1)) % WRAP64
  {
    AddOneModulo(r + g, WRAP64);
  }

  /** The turn moves on at the end of each quantum. */
  lemma Turn(c: nat, n: nat, t: nat)
    requires n > 0 && c < n
    ensures Place(c, (t + 1) / QUANTUM, n) ==
      if (t + 1) % QUANTUM == 0 then After(Place(c, t / QUANTUM, n), n) else Place(c, t / QUANTUM, n)
  {
    var x := c + t / QUANTUM;
    if (t + 1) % QUANTUM == 0 {
      assert (t + 1) / QUANTUM == t / QUANTUM + 1;
      AddOneModulo(x, n);
      AfterIsModulo(x % n, n);
    } else {
      assert (t + 1) / QUANTUM == t / QUANTUM;
    }
  }

  lemma AddOneModulo(x: nat, n: nat)
    requires n > 0
    ensures (x + 1) % n == (x % n + 1) % n
  {
    var q, r := x / n, x % n;
    assert x == q * n + r;
    if r + 1 < n { Unique(x + 1, n, q, r + 1); }
    else {
      assert (q + 1) * n == q * n + n;
      Unique(x + 1, n, q + 1, 0);
    }
  }

  /** Two offsets name the same task exactly if they agree modulo n. */
  lemma SamePlace(c: nat, n: nat, i: nat, w: nat)
    requires n > 0 && c < n && i < n
    ensures Place(c, i, n) == Place(c, w, n) <==> i == w % n
  {
    var j := w % n;
    PlaceModulo(c, n, w);
    Small(c, n, i);
    Small(c, n, j);
  }

  lemma PlaceModulo(c: nat, n: nat, w: nat)
    requires n > 0
    ensures Place(c, w % n, n) == Place(c, w, n) && w % n < n
  {
    Division(w, n);
    Shift(c + w % n, n, w / n);
    assert c + w == c + w % n + w / n * n;
  }

  lemma Small(c: nat, n: nat, i: nat)
    requires c < n && i < n
    ensures Place(c, i, n) == if c + i < n then c + i else c + i - n
  {
    if c + i < n { Unique(c + i, n, 0, c + i); } else { Unique(c + i, n, 1, c + i - n); }
  }

  lemma Shift(x: nat, n: nat, q: nat)
    requires n > 0
    ensures (x + q * n) % n == x % n
  {
    assert x + q * n == (x / n + q) * n + x % n;
    Unique(x + q * n, n, x / n + q, x % n);
  }

  /** Hence any two tasks' gains differ by at most one quantum. */
  lemma GainsClose(n: nat, i: nat, j: nat, t: nat)
    requires n > 0
    ensures Gain(n, i, t) <= Gain(n, j, t) + QUANTUM
  {}

  // ---- The running scheduler --------------------------------------------------------------------

  /** The static task table and counters, and the timer's own counter. */
  class TaskTable {
    const tasks: array<Task>
    var taskCount: nat
    var currentIndex: nat
    var tickCount: u64
    var timerTicks: u64

    constructor ()
      ensures Valid() && fresh(tasks) && Value() == State([], 0, 0, 0)
    {
      tasks := new Task[MAX_TASKS](_ => CLEAR);
      taskCount, currentIndex, tickCount, timerTicks := 0, 0, 0, 0;
    }

    ghost predicate Valid()
      reads this
    {
      && tasks.Length == MAX_TASKS && taskCount <= MAX_TASKS
      && (currentIndex < taskCount || (taskCount == 0 && currentIndex == 0))
    }

    ghost function Value(): State
      requires Valid()
      reads this, tasks
    {
      State(tasks[..taskCount], currentIndex, tickCount, timerTicks)
    }

    method SchedulerInit()
      requires Valid()
      modifies this, tasks
      ensures Valid() && Value() == Init(old(timerTicks))
    {
      for i := 0 to MAX_TASKS
        invariant Valid() && timerTicks == old(timerTicks)
      {
        tasks[i] := CLEAR;
      }
      tasks[0] := Task(BOOTSTRAP_ID, 0, BOOTSTRAP_PRIORITY, Running);
      taskCount, currentIndex, tickCount := 1, 0, 0;
      assert tasks[..1] == [tasks[0]];
    }

    method SchedulerTick()
      requires Valid()
      modifies this`tickCount, tasks
      ensures Valid() && Value() == Tick(old(Value()))
    {
      ghost var before := tasks[..taskCount];
      tickCount := Next(tickCount);
      if taskCount == 0 { return; }
      if tasks[currentIndex].state == Running {
        tasks[currentIndex] := tasks[currentIndex].(runtime := Next(tasks[currentIndex].runtime));
        assert tasks[..taskCount] == before[currentIndex := tasks[currentIndex]];
      }
    }

    method AddKernelTask(id: u64, priority: u32) returns (code: int)
      requires Valid()
      modifies this`taskCount, tasks
      ensures Valid() && (Value(), code) == Add(old(Value()), id, priority)
    {
      if taskCount >= MAX_TASKS || id == 0 { return -1; }
      ghost var before := tasks[..taskCount];
      for i := 0 to taskCount
        invariant forall j: nat | j < i :: !(tasks[j].state != Unused && tasks[j].id == id)
        invariant tasks[..taskCount] == before && Valid() && taskCount == old(taskCount)
      {
        if tasks[i].state != Unused && tasks[i].id == id {
          assert before[i].state != Unused && before[i].id == id;
          return -2;
        }
      }
      assert !Known(before, id);
      tasks[taskCount] := Task(id, 0, priority, Ready);
      taskCount := taskCount + 1;
      assert tasks[..taskCount] == before + [Task(id, 0, priority, Ready)];
      code := 0;
    }

    method SchedulerPickNext()
      requires Valid()
      modifies this`currentIndex, tasks
      ensures Valid() && Value() == PickNext(old(Value()))
    {
      if taskCount == 0 { return; }
      ghost var s := Value();
      var step := 1;
      while step <= taskCount
        invariant 1 <= step <= taskCount + 1 && Valid() && taskCount > 0 && Value() == s
        invariant Candidate(s, 1) == Candidate(s, step)
      {
        var candidate := (currentIndex + step) % taskCount;
        assert tasks[candidate] == s.tasks[candidate];
        if tasks[candidate].state == Ready || tasks[candidate].state == Running {
          tasks[currentIndex] := tasks[currentIndex].(state := Ready);
          ghost var parked := s.tasks[s.current := s.tasks[s.current].(state := Ready)];
          assert tasks[..taskCount] == parked;
          currentIndex := candidate;
          tasks[currentIndex] := tasks[currentIndex].(state := Running);
          assert tasks[..taskCount] == parked[candidate := parked[candidate].(state := Running)];
          return;
        }
        step := step + 1;
      }
    }

    method TimerInterrupt()
      requires Valid()
      modifies this`timerTicks, this`tickCount, this`currentIndex, tasks
      ensures Valid() && Value() == TimerTick(old(Value()))
    {
      timerTicks := Next(timerTicks);
      SchedulerTick();
      if timerTicks % QUANTUM == 0 && taskCount > 1 {
        SchedulerPickNext();
      }
    }
  }
}

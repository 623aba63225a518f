/** Timers, tasklets and work items that schedule each other and themselves, and the ordered
    shutdown of three modules built from them.

    An activity is anything the kernel runs later: a timer callback, a tasklet, a work item, a delayed
    work item. It is pending at most once (scheduling a pending activity has no further effect), it does
    not run twice at the same time, and its pending mark is cleared when its handler starts. A handler
    is the list of activities it schedules, in order; it may schedule itself. An exit function is a list
    of the kernel's teardown calls. Events interleave one step at a time, in any order. */
module DeferredWork {
  import opened Counting

  /** The teardown calls:
      - StopTimer: `del_timer_sync`, `hrtimer_cancel`: waits until the callback is not running, then disarms;
      - Drain: `tasklet_kill`, `flush_work`, `flush_workqueue`, `destroy_workqueue`: waits until neither
        pending nor running;
      - CancelBegin, CancelEnd: `cancel_work_sync`, `cancel_delayed_work_sync`: takes back a pending
        instance and refuses to have it scheduled again, then waits until it is not running. */
  datatype ExitOp = StopTimer(i: nat) | Drain(i: nat) | CancelBegin(i: nat) | CancelEnd(i: nat)

  /** A module: what each activity's handler schedules, what is pending after init, and the exit function. */
  datatype Module = Module(targets: seq<seq<nat>>, initial: seq<bool>, exit: seq<ExitOp>)

  datatype Running = NotRunning | At(next: nat)
  datatype Activity = Activity(pending: bool, canceling: bool, running: Running)

  /** `done` teardown calls have completed; `starts` lists the activities whose handlers started, in order. */
  datatype State = State(acts: seq<Activity>, done: nat, starts: seq<nat>)

  /** A handler starts; a running handler takes its next action; the next teardown call completes.
      An event that is not possible in a state leaves it unchanged. */
  datatype Event = Start(i: nat) | Advance(i: nat) | Exit

  ghost predicate Wired(m: Module) {
    && |m.initial| == |m.targets|
    && (forall j, q :: 0 <= j < |m.targets| && 0 <= q < |m.targets[j]| ==> m.targets[j][q] < |m.targets|)
    && forall k :: 0 <= k < |m.exit| ==> m.exit[k].i < |m.targets|
  }

  function Schedule(acts: seq<Activity>, t: nat): (r: seq<Activity>)
    requires t < |acts|
    ensures |r| == |acts|
  {
    if acts[t].canceling then acts else acts[t := acts[t].(pending := true)]
  }

  function StartSpec(s: State, i: nat): State
    requires i < |s.acts|
  {
    var a := s.acts[i];
    if a.pending && a.running.NotRunning? then
      s.(acts := s.acts[i := a.(pending := false, running := At(0))], starts := s.starts + [i])
    else s
  }

  function AdvanceSpec(m: Module, s: State, i: nat): State
    requires Wired(m) && |s.acts| == |m.targets| && i < |s.acts|
  {
    match s.acts[i].running
    case NotRunning => s
    case At(q) =>
      if q < |m.targets[i]| then
        var acts := Schedule(s.acts, m.targets[i][q]);
        s.(acts := acts[i := acts[i].(running := At(q + 1))])
      else s.(acts := s.acts[i := s.acts[i].(running := NotRunning)])
  }

  function ExitSpec(m: Module, s: State): State
    requires Wired(m) && |s.acts| == |m.targets|
  {
    if s.done >= |m.exit| then s
    else
      var op := m.exit[s.done];
      var a := s.acts[op.i];
      match op
      case StopTimer(i) =>
        if a.running.NotRunning? then s.(acts := s.acts[i := a.(pending := false)], done := s.done + 1) else s
      case Drain(i) =>
        if !a.pending && a.running.NotRunning? then s.(done := s.done + 1) else s
      case CancelBegin(i) => s.(acts := s.acts[i := a.(pending := false, canceling := true)], done := s.done + 1)
      case CancelEnd(i) =>
        if a.running.NotRunning? then s.(acts := s.acts[i := a.(canceling := false)], done := s.done + 1) else s
  }

  function Next(m: Module, s: State, ev: Event): (r: State)
    requires Wired(m) && |s.acts| == |m.targets|
    ensures |r.acts| == |m.targets|
  {
    match ev
    case Start(i) => if i < |s.acts| then StartSpec(s, i) else s
    case Advance(i) => if i < |s.acts| then AdvanceSpec(m, s, i) else s
    case Exit => ExitSpec(m, s)
  }

  function Init(m: Module): State
    requires Wired(m)
  {
    State(seq(|m.targets|, i requires 0 <= i < |m.targets| => Activity(m.initial[i], false, NotRunning)), 0, [])
  }

  /** The state after the first `k` events of a run. */
  function Reach(m: Module, evs: seq<Event>, k: nat): (s: State)
    requires Wired(m) && k <= |evs|
    ensures |s.acts| == |m.targets|
  {
    if k == 0 then Init(m) else Next(m, Reach(m, evs, k - 1), evs[k - 1])
  }

  /** Runs of one activity do not overlap: it starts only when it is pending and its last run is over. */
  lemma {:induction false} StartsDoNotOverlap(m: Module, evs: seq<Event>, k: nat)
    requires Wired(m) && k < |evs| && Reach(m, evs, k + 1).starts != Reach(m, evs, k).starts
    ensures var s, ev := Reach(m, evs, k), evs[k];
      && ev.Start? && ev.i < |s.acts| && s.acts[ev.i].pending && s.acts[ev.i].running.NotRunning?
      && Reach(m, evs, k + 1).starts == s.starts + [ev.i]
  {
  }

  // ---------------------------------------------------------------- proper shutdown order

  /** The teardown call after which activity `i` should be gone. */
  predicate Finishes(op: ExitOp, i: nat) {
    op == StopTimer(i) || op == Drain(i) || op == CancelEnd(i)
  }

  /** One of the first `k` teardown calls finishes activity `i`. */
  ghost predicate FinishedBy(m: Module, k: nat, i: nat) {
    exists x :: 0 <= x < k && x < |m.exit| && Finishes(m.exit[x], i)
  }

  /** Every activity is finished only after all the others that schedule it. */
  ghost predicate ProperOrder(m: Module)
    requires Wired(m)
  {
    && (forall x, i: nat, j: nat ::
          (0 <= x < |m.exit| && Finishes(m.exit[x], i) && j < |m.targets| && j != i && i in m.targets[j])
          ==> FinishedBy(m, x, j))
    && (forall x :: 0 <= x < |m.exit| && m.exit[x].CancelEnd? ==> x > 0 && m.exit[x - 1] == CancelBegin(m.exit[x].i))
  }

  ghost predicate Complete(m: Module) {
    forall i: nat :: i < |m.targets| ==> FinishedBy(m, |m.exit|, i)
  }

  ghost predicate Gone(a: Activity) {
    !a.pending && a.running.NotRunning?
  }

  /** Finished activities are gone, and one being cancelled is not pending. */
  ghost predicate Inv(m: Module, s: State)
    requires Wired(m)
  {
    && |s.acts| == |m.targets| && s.done <= |m.exit|
    && (forall i: nat :: i < |s.acts| && FinishedBy(m, s.done, i) ==> Gone(s.acts[i]))
    && (forall i: nat :: i < |s.acts| && s.acts[i].canceling ==> !s.acts[i].pending)
    && (s.done > 0 && m.exit[s.done - 1].CancelBegin? ==> s.acts[m.exit[s.done - 1].i].canceling)
  }

  lemma {:induction false} AdvanceKeepsInv(m: Module, s: State, j: nat)
    requires Wired(m) && ProperOrder(m) && Inv(m, s) && j < |s.acts|
    ensures Inv(m, AdvanceSpec(m, s, j))
  {
    var t := AdvanceSpec(m, s, j);
    if s.acts[j].running.At? && s.acts[j].running.next < |m.targets[j]| {
      var i := m.targets[j][s.acts[j].running.next];
      NotFinishedWhileScheduled(m, s, j, i);
    }
  }

  /** What a running handler is about to schedule has not been finished yet. */
  lemma {:induction false} NotFinishedWhileScheduled(m: Module, s: State, j: nat, i: nat)
    requires Wired(m) && ProperOrder(m) && Inv(m, s)
    requires j < |s.acts| && i < |s.acts| && s.acts[j].running.At? && i in m.targets[j]
    ensures !FinishedBy(m, s.done, i)
  {
    if FinishedBy(m, s.done, i) && j != i {
      SchedulersFinished(m, s.done, i, j);
    }
  }

  lemma {:induction false} SchedulersFinished(m: Module, k: nat, i: nat, j: nat)
    requires Wired(m) && ProperOrder(m)
    requires FinishedBy(m, k, i) && j < |m.targets| && j != i && i in m.targets[j]
    ensures FinishedBy(m, k, j)
  {
    var x :| 0 <= x < k && x < |m.exit| && Finishes(m.exit[x], i);
    assert FinishedBy(m, x, j);
    var y :| 0 <= y < x && y < |m.exit| && Finishes(m.exit[y], j);
  }

  lemma {:induction false} FinishedByStep(m: Module, k: nat, i: nat)
    requires k < |m.exit|
    ensures FinishedBy(m, k + 1, i) <==> FinishedBy(m, k, i) || Finishes(m.exit[k], i)
  {
    if FinishedBy(m, k, i) {
      var x :| 0 <= x < k && x < |m.exit| && Finishes(m.exit[x], i);
      assert Finishes(m.exit[x], i);
    }
  }

  lemma {:induction false} ExitKeepsInv(m: Module, s: State)
    requires Wired(m) && ProperOrder(m) && Inv(m, s)
    ensures Inv(m, ExitSpec(m, s))
  {
    var t := ExitSpec(m, s);
    if t.done == s.done + 1 {
      forall i: nat | i < |t.acts| && FinishedBy(m, t.done, i)
        ensures Gone(t.acts[i])
      {
        FinishedByStep(m, s.done, i);
      }
    }
  }

  lemma {:induction false} ReachInv(m: Module, evs: seq<Event>, k: nat)
    requires Wired(m) && ProperOrder(m) && k <= |evs|
    ensures Inv(m, Reach(m, evs, k))
  {
    if k == 0 {
    } else {
      ReachInv(m, evs, k - 1);
      var s := Reach(m, evs, k - 1);
      match evs[k - 1]
      case Start(i) =>
      case Advance(i) => if i < |s.acts| { AdvanceKeepsInv(m, s, i); }
      case Exit => ExitKeepsInv(m, s);
    }
  }

  /** In every run of a module with a proper and complete exit function: once exit has returned,
      nothing is pending or running. */
  lemma {:induction false} QuietAfterExit(m: Module, evs: seq<Event>, k: nat, i: nat)
    requires Wired(m) && ProperOrder(m) && Complete(m) && k <= |evs| && i < |m.targets|
    requires Reach(m, evs, k).done == |m.exit|
    ensures Gone(Reach(m, evs, k).acts[i])
  {
    ReachInv(m, evs, k);
    assert FinishedBy(m, |m.exit|, i);
  }

  lemma {:induction false} StepAfterExit(m: Module, s: State, ev: Event)
    requires Wired(m) && |s.acts| == |m.targets| && s.done == |m.exit|
    requires ev.Start? && ev.i < |s.acts| ==> Gone(s.acts[ev.i])
    ensures Next(m, s, ev).done == |m.exit| && Next(m, s, ev).starts == s.starts
  {
  }

  /** After exit no later step of any kind starts a handler again. */
  lemma {:induction false} NoStartAfterExit(m: Module, evs: seq<Event>, k: nat, l: nat)
    requires Wired(m) && ProperOrder(m) && Complete(m) && k <= l <= |evs|
    requires Reach(m, evs, k).done == |m.exit|
    ensures Reach(m, evs, l).done == |m.exit| && Reach(m, evs, l).starts == Reach(m, evs, k).starts
    decreases l
  {
    if k < l {
      NoStartAfterExit(m, evs, k, l - 1);
      if evs[l - 1].Start? && evs[l - 1].i < |m.targets| {
        QuietAfterExit(m, evs, l - 1, evs[l - 1].i);
      }
      StepAfterExit(m, Reach(m, evs, l - 1), evs[l - 1]);
    }
  }

  /** Each cancel that begins is the next call to end. */
  ghost predicate CancelsEnd(m: Module) {
    forall x :: 0 <= x < |m.exit| && m.exit[x].CancelBegin? ==>
      x + 1 < |m.exit| && m.exit[x + 1] == CancelEnd(m.exit[x].i)
  }

  /** Scheduling is refused only during the cancel of that very activity, so not before exit nor after it. */
  lemma {:induction false} RefusedOnlyInCancel(m: Module, evs: seq<Event>, k: nat, i: nat)
    requires Wired(m) && CancelsEnd(m) && k <= |evs| && i < |m.targets| && Reach(m, evs, k).acts[i].canceling
    ensures 0 < Reach(m, evs, k).done < |m.exit| && m.exit[Reach(m, evs, k).done - 1] == CancelBegin(i)
  {
    if k == 0 {
    } else if Reach(m, evs, k - 1).acts[i].canceling {
      RefusedOnlyInCancel(m, evs, k - 1, i);
    }
  }

  // ---------------------------------------------------------------- every firing is served

  /** No teardown call takes activity `t` back: it is only ever drained. */
  ghost predicate OnlyDrained(m: Module, t: nat) {
    forall x :: 0 <= x < |m.exit| ==> m.exit[x] != StopTimer(t) && m.exit[x] != CancelBegin(t)
  }

  /** None of the first `k` teardown calls takes activity `t` back. */
  ghost predicate NotTaken(m: Module, k: nat, t: nat) {
    forall x :: 0 <= x < k && x < |m.exit| ==> m.exit[x] != StopTimer(t) && m.exit[x] != CancelBegin(t)
  }

  /** The handler of `j` is running and has not reached its `q`-th target yet. */
  predicate StillToSchedule(s: State, j: nat, q: nat)
    requires j < |s.acts|
  {
    s.acts[j].running.At? && s.acts[j].running.next <= q
  }

  /** A start of `t` comes after position `x` of the list of starts. */
  ghost predicate ServedAfter(starts: seq<nat>, x: nat, t: nat) {
    exists y :: x < y < |starts| && starts[y] == t
  }

  /** Every start of `j` has been followed by a start of `t`, unless one is still on its way. */
  ghost predicate ServiceInv(m: Module, s: State, j: nat, q: nat, t: nat) {
    && |s.acts| == |m.targets| && j < |s.acts| && t < |s.acts|
    && !s.acts[t].canceling
    && (s.acts[t].pending || StillToSchedule(s, j, q)
        || forall x: nat :: x < |s.starts| && s.starts[x] == j ==> ServedAfter(s.starts, x, t))
  }

  ghost predicate Schedules(m: Module, j: nat, q: nat, t: nat) {
    j < |m.targets| && t < |m.targets| && j != t && q < |m.targets[j]| && m.targets[j][q] == t
  }

  lemma {:induction false} StartKeepsService(m: Module, s: State, j: nat, q: nat, t: nat, i: nat)
    requires Wired(m) && Schedules(m, j, q, t) && ServiceInv(m, s, j, q, t) && i < |s.acts|
    ensures ServiceInv(m, StartSpec(s, i), j, q, t)
  {
    var r := StartSpec(s, i);
    if r != s {
      var n := |s.starts|;
      if i == t {
        forall x: nat | x < |r.starts| && r.starts[x] == j
          ensures ServedAfter(r.starts, x, t)
        {
          assert r.starts[n] == t;
        }
      } else if i != j && !s.acts[t].pending && !StillToSchedule(s, j, q) {
        forall x: nat | x < |r.starts| && r.starts[x] == j
          ensures ServedAfter(r.starts, x, t)
        {
          assert ServedAfter(s.starts, x, t);
          var y :| x < y < |s.starts| && s.starts[y] == t;
          assert r.starts[y] == t;
        }
      }
    }
  }

  lemma {:induction false} AdvanceKeepsService(m: Module, s: State, j: nat, q: nat, t: nat, i: nat)
    requires Wired(m) && Schedules(m, j, q, t) && ServiceInv(m, s, j, q, t) && i < |s.acts|
    ensures ServiceInv(m, AdvanceSpec(m, s, i), j, q, t)
  {
    assert AdvanceSpec(m, s, i).starts == s.starts;
  }

  lemma {:induction false} ReachService(m: Module, evs: seq<Event>, k: nat, j: nat, q: nat, t: nat)
    requires Wired(m) && Schedules(m, j, q, t) && k <= |evs| && NotTaken(m, Reach(m, evs, k).done, t)
    ensures ServiceInv(m, Reach(m, evs, k), j, q, t)
  {
    if k == 0 {
    } else {
      var s := Reach(m, evs, k - 1);
      assert s.done <= Reach(m, evs, k).done;
      ReachService(m, evs, k - 1, j, q, t);
      match evs[k - 1]
      case Start(i) => if i < |s.acts| { StartKeepsService(m, s, j, q, t, i); }
      case Advance(i) => if i < |s.acts| { AdvanceKeepsService(m, s, j, q, t, i); }
      case Exit => assert ExitSpec(m, s).starts == s.starts;
    }
  }

  /** Although schedules coalesce: when exit has returned, every start of `j` has been followed by a start
      of each activity it schedules and exit only drains. */
  lemma {:induction false} EveryStartServed(m: Module, evs: seq<Event>, j: nat, q: nat, t: nat, x: nat)
    requires Wired(m) && ProperOrder(m) && Complete(m)
    requires Schedules(m, j, q, t) && OnlyDrained(m, t)
    requires Reach(m, evs, |evs|).done == |m.exit|
    requires x < |Reach(m, evs, |evs|).starts| && Reach(m, evs, |evs|).starts[x] == j
    ensures ServedAfter(Reach(m, evs, |evs|).starts, x, t)
  {
    ReachService(m, evs, |evs|, j, q, t);
    QuietAfterExit(m, evs, |evs|, j);
    QuietAfterExit(m, evs, |evs|, t);
  }

  // ---------------------------------------------------------------- counters

  /** How often `i` started: the module's counter for that handler. */
  function Count(starts: seq<nat>, i: nat): nat {
    if starts == [] then 0
    else Count(starts[..|starts| - 1], i) + if starts[|starts| - 1] == i then 1 else 0
  }

  lemma {:induction false} CountSnoc(starts: seq<nat>, e: nat, i: nat)
    ensures Count(starts + [e], i) == Count(starts, i) + if e == i then 1 else 0
  {
    assert (starts + [e])[..|starts|] == starts;
  }

  /** Only `j` schedules `t`, once per run, and `t` is not pending after init. */
  ghost predicate OnlySchedules(m: Module, j: nat, q: nat, t: nat)
    requires Wired(m)
  {
    && Schedules(m, j, q, t) && !m.initial[t]
    && forall i: nat, r: nat :: i < |m.targets| && r < |m.targets[i]| && m.targets[i][r] == t ==> i == j && r == q
  }

  ghost predicate CountInv(m: Module, s: State, j: nat, q: nat, t: nat) {
    && |s.acts| == |m.targets| && j < |s.acts| && t < |s.acts|
    && Count(s.starts, t) + One(s.acts[t].pending) + One(StillToSchedule(s, j, q)) <= Count(s.starts, j)
  }

  lemma {:induction false} StartKeepsCount(m: Module, s: State, i: nat, j: nat, q: nat, t: nat)
    requires Wired(m) && OnlySchedules(m, j, q, t) && CountInv(m, s, j, q, t) && i < |s.acts|
    ensures CountInv(m, StartSpec(s, i), j, q, t)
  {
    CountSnoc(s.starts, i, t);
    CountSnoc(s.starts, i, j);
  }

  lemma {:induction false} AdvanceKeepsCount(m: Module, s: State, i: nat, j: nat, q: nat, t: nat)
    requires Wired(m) && OnlySchedules(m, j, q, t) && CountInv(m, s, j, q, t) && i < |s.acts|
    ensures CountInv(m, AdvanceSpec(m, s, i), j, q, t)
  {
  }

  lemma {:induction false} ExitKeepsCount(m: Module, s: State, j: nat, q: nat, t: nat)
    requires Wired(m) && CountInv(m, s, j, q, t)
    ensures CountInv(m, ExitSpec(m, s), j, q, t)
  {
  }

  lemma {:induction false} NextKeepsCount(m: Module, s: State, ev: Event, j: nat, q: nat, t: nat)
    requires Wired(m) && OnlySchedules(m, j, q, t) && CountInv(m, s, j, q, t)
    ensures CountInv(m, Next(m, s, ev), j, q, t)
  {
    match ev
    case Start(i) =>
      if i < |s.acts| {
        StartKeepsCount(m, s, i, j, q, t);
      }
    case Advance(i) =>
      if i < |s.acts| {
        AdvanceKeepsCount(m, s, i, j, q, t);
      }
    case Exit => ExitKeepsCount(m, s, j, q, t);
  }

  /** In every reachable state a handler has started at most as often as the one that schedules it. */
  lemma {:induction false} CountBounded(m: Module, evs: seq<Event>, k: nat, j: nat, q: nat, t: nat)
    requires Wired(m) && OnlySchedules(m, j, q, t) && k <= |evs|
    ensures CountInv(m, Reach(m, evs, k), j, q, t)
    ensures Count(Reach(m, evs, k).starts, t) <= Count(Reach(m, evs, k).starts, j)
  {
    if k == 0 {
    } else {
      CountBounded(m, evs, k - 1, j, q, t);
      NextKeepsCount(m, Reach(m, evs, k - 1), evs[k - 1], j, q, t);
    }
  }

  // ---------------------------------------------------------------- exit can always return

  function RunFrom(m: Module, s: State, evs: seq<Event>): (r: State)
    requires Wired(m) && |s.acts| == |m.targets|
    ensures |r.acts| == |m.targets|
    decreases |evs|
  {
    if evs == [] then s else RunFrom(m, Next(m, s, evs[0]), evs[1..])
  }

  lemma {:induction false} RunConcat(m: Module, s: State, a: seq<Event>, b: seq<Event>)
    requires Wired(m) && |s.acts| == |m.targets|
    ensures RunFrom(m, s, a + b) == RunFrom(m, RunFrom(m, s, a), b)
    decreases |a|
  {
    if a == [] {
      assert a + b == b;
    } else {
      RunConcat(m, Next(m, s, a[0]), a[1..], b);
      assert (a + b)[1..] == a[1..] + b;
    }
  }

  lemma {:induction false} ReachPrefix(m: Module, evs: seq<Event>, more: seq<Event>, k: nat)
    requires Wired(m) && k <= |evs|
    ensures Reach(m, evs + more, k) == Reach(m, evs, k)
  {
    if k == 0 {
    } else {
      ReachPrefix(m, evs, more, k - 1);
    }
  }

  lemma {:induction false} ReachSnoc(m: Module, evs: seq<Event>, ev: Event)
    requires Wired(m)
    ensures Reach(m, evs + [ev], |evs + [ev]|) == Next(m, Reach(m, evs, |evs|), ev)
  {
    ReachPrefix(m, evs, [ev], |evs|);
  }

  /** A run followed by more events. */
  lemma {:induction false} ReachContinues(m: Module, evs: seq<Event>, more: seq<Event>)
    requires Wired(m)
    ensures Reach(m, evs + more, |evs + more|) == RunFrom(m, Reach(m, evs, |evs|), more)
    decreases |more|
  {
    if more == [] {
      assert evs + more == evs;
    } else {
      assert evs + [more[0]] + more[1..] == evs + more;
      ReachContinues(m, evs + [more[0]], more[1..]);
      ReachSnoc(m, evs, more[0]);
    }
  }

  /** The actions the handler of `a` still has to take. */
  function Remaining(m: Module, a: Activity, i: nat): nat
    requires i < |m.targets|
  {
    match a.running
    case NotRunning => 0
    case At(q) => if q < |m.targets[i]| then |m.targets[i]| - q + 1 else 1
  }

  /** A running handler can be brought to its end; unless it schedules itself, it is pending as before. */
  lemma {:induction false} FinishHandler(m: Module, s: State, i: nat) returns (evs: seq<Event>)
    requires Wired(m) && |s.acts| == |m.targets| && i < |s.acts|
    ensures var t := RunFrom(m, s, evs);
      && t.acts[i].running.NotRunning? && t.done == s.done
      && (i !in m.targets[i] ==> t.acts[i].pending == s.acts[i].pending)
    decreases Remaining(m, s.acts[i], i)
  {
    evs := [];
    if s.acts[i].running.NotRunning? {
    } else {
      var t := Next(m, s, Advance(i));
      AdvanceShortens(m, s, i);
      var rest := FinishHandler(m, t, i);
      evs := [Advance(i)] + rest;
      assert evs[1..] == rest;
    }
  }

  lemma {:induction false} AdvanceShortens(m: Module, s: State, i: nat)
    requires Wired(m) && |s.acts| == |m.targets| && i < |s.acts| && s.acts[i].running.At?
    ensures var t := AdvanceSpec(m, s, i);
      && Remaining(m, t.acts[i], i) < Remaining(m, s.acts[i], i) && t.done == s.done
      && (i !in m.targets[i] ==> t.acts[i].pending == s.acts[i].pending)
  {
  }

  /** An activity that does not schedule itself can be brought to rest. */
  lemma {:induction false} DrainActivity(m: Module, s: State, i: nat) returns (evs: seq<Event>)
    requires Wired(m) && |s.acts| == |m.targets| && i < |s.acts| && i !in m.targets[i]
    ensures Gone(RunFrom(m, s, evs).acts[i]) && RunFrom(m, s, evs).done == s.done
  {
    evs := FinishHandler(m, s, i);
    var t := RunFrom(m, s, evs);
    if t.acts[i].pending {
      var u := Next(m, t, Start(i));
      var rest := FinishHandler(m, u, i);
      assert ([Start(i)] + rest)[1..] == rest;
      assert RunFrom(m, t, [Start(i)] + rest) == RunFrom(m, u, rest);
      RunConcat(m, s, evs, [Start(i)] + rest);
      evs := evs + ([Start(i)] + rest);
    }
  }

  /** Exit waits for no activity that schedules itself to run dry. */
  ghost predicate NoSelfDrain(m: Module)
    requires Wired(m)
  {
    forall k :: 0 <= k < |m.exit| && m.exit[k].Drain? ==> m.exit[k].i !in m.targets[m.exit[k].i]
  }

  /** The teardown call that is next can be made to complete. */
  lemma {:induction false} NextCallCompletes(m: Module, s: State) returns (evs: seq<Event>)
    requires Wired(m) && NoSelfDrain(m) && |s.acts| == |m.targets| && s.done < |m.exit|
    ensures RunFrom(m, s, evs).done == s.done + 1
  {
    var op := m.exit[s.done];
    if op.Drain? {
      evs := DrainActivity(m, s, op.i);
    } else {
      evs := FinishHandler(m, s, op.i);
    }
    var t := RunFrom(m, s, evs);
    RunConcat(m, s, evs, [Exit]);
    assert RunFrom(m, t, [Exit]) == RunFrom(m, Next(m, t, Exit), [Exit][1..]) == Next(m, t, Exit);
    evs := evs + [Exit];
  }

  lemma {:induction false} ExitCompletes(m: Module, s: State) returns (evs: seq<Event>)
    requires Wired(m) && NoSelfDrain(m) && |s.acts| == |m.targets| && s.done <= |m.exit|
    ensures RunFrom(m, s, evs).done == |m.exit|
    decreases |m.exit| - s.done
  {
    evs := [];
    if s.done == |m.exit| {
    } else {
      evs := NextCallCompletes(m, s);
      var rest := ExitCompletes(m, RunFrom(m, s, evs));
      RunConcat(m, s, evs, rest);
      evs := evs + rest;
    }
  }

  lemma {:induction false} DoneInRange(m: Module, evs: seq<Event>, k: nat)
    requires Wired(m) && k <= |evs|
    ensures Reach(m, evs, k).done <= |m.exit|
  {
    if k == 0 {
    } else {
      DoneInRange(m, evs, k - 1);
    }
  }

  /** Progress: whatever has happened, with work pending, coalesced or re-armed, exit can still return. */
  lemma {:induction false} ExitCanReturn(m: Module, evs: seq<Event>) returns (more: seq<Event>)
    requires Wired(m) && NoSelfDrain(m)
    ensures Reach(m, evs + more, |evs + more|).done == |m.exit|
  {
    DoneInRange(m, evs, |evs|);
    more := ExitCompletes(m, Reach(m, evs, |evs|));
    ReachContinues(m, evs, more);
  }

  // ---------------------------------------------------------------- self re-arming activities go on

  /** Pending, not running, and free to be scheduled. */
  predicate Armed(a: Activity) {
    a.pending && a.running.NotRunning? && !a.canceling
  }

  /** The handler of `i` schedules `i` itself as its action `x`. */
  ghost predicate Rearms(m: Module, i: nat, x: nat) {
    i < |m.targets| && x < |m.targets[i]| && m.targets[i][x] == i
  }

  /** Running to its end, such a handler leaves its activity armed. */
  lemma {:induction false} FinishArmed(m: Module, s: State, i: nat, x: nat) returns (evs: seq<Event>)
    requires Wired(m) && |s.acts| == |m.targets| && Rearms(m, i, x)
    requires s.acts[i].running.At? && !s.acts[i].canceling && (s.acts[i].pending || s.acts[i].running.next <= x)
    ensures var t := RunFrom(m, s, evs);
      Armed(t.acts[i]) && t.done == s.done && t.starts == s.starts
    decreases Remaining(m, s.acts[i], i)
  {
    var t := Next(m, s, Advance(i));
    AdvanceArms(m, s, i, x);
    evs := [Advance(i)];
    if t.acts[i].running.At? {
      var rest := FinishArmed(m, t, i, x);
      evs := [Advance(i)] + rest;
      assert evs[1..] == rest;
    } else {
      assert RunFrom(m, s, evs) == RunFrom(m, t, evs[1..]) == t;
    }
  }

  lemma {:induction false} AdvanceArms(m: Module, s: State, i: nat, x: nat)
    requires Wired(m) && |s.acts| == |m.targets| && Rearms(m, i, x)
    requires s.acts[i].running.At? && !s.acts[i].canceling && (s.acts[i].pending || s.acts[i].running.next <= x)
    ensures var t := AdvanceSpec(m, s, i);
      && t.done == s.done && t.starts == s.starts && !t.acts[i].canceling
      && Remaining(m, t.acts[i], i) < Remaining(m, s.acts[i], i)
      && (t.acts[i].running.At? ==> t.acts[i].pending || t.acts[i].running.next <= x)
      && (t.acts[i].running.NotRunning? ==> t.acts[i].pending)
  {
  }

  lemma {:induction false} FireOnce(m: Module, s: State, i: nat, x: nat) returns (evs: seq<Event>)
    requires Wired(m) && |s.acts| == |m.targets| && Rearms(m, i, x) && Armed(s.acts[i])
    ensures var t := RunFrom(m, s, evs);
      Armed(t.acts[i]) && t.done == s.done && t.starts == s.starts + [i]
  {
    var t := Next(m, s, Start(i));
    var rest := FinishArmed(m, t, i, x);
    evs := [Start(i)] + rest;
    assert evs[1..] == rest;
  }

  lemma {:induction false} FireTimes(m: Module, s: State, i: nat, x: nat, n: nat) returns (evs: seq<Event>)
    requires Wired(m) && |s.acts| == |m.targets| && Rearms(m, i, x) && Armed(s.acts[i])
    ensures var t := RunFrom(m, s, evs);
      Armed(t.acts[i]) && t.done == s.done && Count(t.starts, i) == Count(s.starts, i) + n
    decreases n
  {
    evs := [];
    if n == 0 {
    } else {
      evs := FireOnce(m, s, i, x);
      var t := RunFrom(m, s, evs);
      CountSnoc(s.starts, i, i);
      var rest := FireTimes(m, t, i, x, n - 1);
      RunConcat(m, s, evs, rest);
      evs := evs + rest;
    }
  }

  /** An activity that init arms and that re-arms itself can run any number of times before exit begins. */
  lemma {:induction false} KeepsFiring(m: Module, i: nat, x: nat, n: nat) returns (evs: seq<Event>)
    requires Wired(m) && Rearms(m, i, x) && m.initial[i]
    ensures Count(Reach(m, evs, |evs|).starts, i) == n && Reach(m, evs, |evs|).done == 0
  {
    evs := FireTimes(m, Init(m), i, x, n);
    ReachContinues(m, [], evs);
    assert [] + evs == evs;
  }

  // ---------------------------------------------------------------- the three modules

  /** ioctl_demo: 0 demo_timer, 1 hr_timer, 2 demo_tasklet, 3 demo_work. */
  function IoctlDemo(): Module {
    Module([[2, 3, 0], [1], [], []], [true, true, false, false],
           [StopTimer(0), StopTimer(1), Drain(2), Drain(3), Drain(3)])
  }

  /** interrupt_processing: 0 irq_simulator, 1 bottom_half_work. */
  function InterruptDemo(): Module {
    Module([[1, 0], []], [true, false], [StopTimer(0), Drain(1)])
  }

  /** work_queues: 0 work_timer, 1 demo_work (one item, queued on either queue), 2 delayed_work. */
  function WorkQueueDemo(): Module {
    Module([[1, 0], [], [2]], [true, false, true],
           [StopTimer(0), CancelBegin(1), CancelEnd(1), CancelBegin(2), CancelEnd(2), Drain(1)])
  }

  lemma {:induction false} IoctlWired()
    ensures Wired(IoctlDemo())
  {
    var m := IoctlDemo();
    assert forall k :: 0 <= k < |m.exit| ==> m.exit[k].i < |m.targets|;
  }

  lemma {:induction false} IoctlOrder()
    ensures Wired(IoctlDemo()) && ProperOrder(IoctlDemo())
  {
    var m := IoctlDemo();
    IoctlWired();
    assert Finishes(m.exit[0], 0);
    assert forall x: nat :: x > 0 ==> FinishedBy(m, x, 0);
  }

  lemma {:induction false} IoctlComplete()
    ensures Complete(IoctlDemo())
  {
    var m := IoctlDemo();
    assert Finishes(m.exit[0], 0) && Finishes(m.exit[1], 1) && Finishes(m.exit[2], 2) && Finishes(m.exit[3], 3);
  }

  lemma {:induction false} InterruptWired()
    ensures Wired(InterruptDemo())
  {
    var m := InterruptDemo();
    assert forall k :: 0 <= k < |m.exit| ==> m.exit[k].i < |m.targets|;
  }

  lemma {:induction false} InterruptOrder()
    ensures Wired(InterruptDemo()) && ProperOrder(InterruptDemo())
  {
    var m := InterruptDemo();
    InterruptWired();
    assert Finishes(m.exit[0], 0);
    assert forall x: nat :: x > 0 ==> FinishedBy(m, x, 0);
  }

  lemma {:induction false} InterruptComplete()
    ensures Complete(InterruptDemo())
  {
    var m := InterruptDemo();
    assert Finishes(m.exit[0], 0) && Finishes(m.exit[1], 1);
  }

  lemma {:induction false} WorkQueueWired()
    ensures Wired(WorkQueueDemo())
  {
    var m := WorkQueueDemo();
    assert forall k :: 0 <= k < |m.exit| ==> m.exit[k].i < |m.targets|;
  }

  lemma {:induction false} WorkQueueOrder()
    ensures Wired(WorkQueueDemo()) && ProperOrder(WorkQueueDemo())
  {
    var m := WorkQueueDemo();
    WorkQueueWired();
    assert Finishes(m.exit[0], 0);
    assert forall x: nat :: x > 0 ==> FinishedBy(m, x, 0);
  }

  lemma {:induction false} WorkQueueComplete()
    ensures Complete(WorkQueueDemo())
  {
    var m := WorkQueueDemo();
    assert Finishes(m.exit[0], 0) && Finishes(m.exit[2], 1) && Finishes(m.exit[4], 2);
  }

  lemma {:induction false} IoctlSchedules()
    ensures Wired(IoctlDemo()) && OnlySchedules(IoctlDemo(), 0, 0, 2) && OnlySchedules(IoctlDemo(), 0, 1, 3)
    ensures OnlyDrained(IoctlDemo(), 2) && OnlyDrained(IoctlDemo(), 3)
  {
    IoctlWired();
  }

  /** ioctl_demo, in every run: after exit nothing is left; every timer firing has been followed
      by a tasklet run and a work run; tasklet and work counts never exceed the timer count. */
  lemma {:induction false} IoctlDemoRuns(evs: seq<Event>, x: nat, i: nat)
    requires i < 4
    ensures Wired(IoctlDemo())
    ensures var s := Reach(IoctlDemo(), evs, |evs|);
      && Count(s.starts, 2) <= Count(s.starts, 0) && Count(s.starts, 3) <= Count(s.starts, 0)
      && (s.done == 5 ==> Gone(s.acts[i]))
      && (s.done == 5 && x < |s.starts| && s.starts[x] == 0 ==>
            ServedAfter(s.starts, x, 2) && ServedAfter(s.starts, x, 3))
  {
    var m := IoctlDemo();
    IoctlOrder();
    IoctlComplete();
    IoctlSchedules();
    CountBounded(m, evs, |evs|, 0, 0, 2);
    CountBounded(m, evs, |evs|, 0, 1, 3);
    var s := Reach(m, evs, |evs|);
    if s.done == 5 {
      QuietAfterExit(m, evs, |evs|, i);
      if x < |s.starts| && s.starts[x] == 0 {
        EveryStartServed(m, evs, 0, 0, 2, x);
        EveryStartServed(m, evs, 0, 1, 3, x);
      }
    }
  }

  /** interrupt_processing, in every run: after exit nothing is left; every top half has been followed by a
      bottom half that started after it; the bottom count never exceeds the top count. */
  lemma {:induction false} InterruptDemoRuns(evs: seq<Event>, x: nat, i: nat)
    requires i < 2
    ensures Wired(InterruptDemo())
    ensures var s := Reach(InterruptDemo(), evs, |evs|);
      && Count(s.starts, 1) <= Count(s.starts, 0)
      && (s.done == 2 ==> Gone(s.acts[i]))
      && (s.done == 2 && x < |s.starts| && s.starts[x] == 0 ==> ServedAfter(s.starts, x, 1))
  {
    var m := InterruptDemo();
    InterruptOrder();
    InterruptComplete();
    CountBounded(m, evs, |evs|, 0, 0, 1);
    var s := Reach(m, evs, |evs|);
    if s.done == 2 {
      QuietAfterExit(m, evs, |evs|, i);
      if x < |s.starts| && s.starts[x] == 0 {
        EveryStartServed(m, evs, 0, 0, 1, x);
      }
    }
  }

  /** work_queues, in every run: until the work is cancelled, each timer firing whose handler is over has been
      followed by a run of the work, or the work is pending; after exit neither the timer, the work item nor
      the self re-arming delayed work is left, and no later step starts any of them. */
  lemma {:induction false} WorkQueueDemoRuns(evs: seq<Event>, k: nat, i: nat)
    requires i < 3 && k <= |evs|
    ensures Wired(WorkQueueDemo())
    ensures var s := Reach(WorkQueueDemo(), evs, |evs|);
      && Count(s.starts, 1) <= Count(s.starts, 0)
      && (s.done <= 1 && !s.acts[1].pending && !s.acts[0].running.At? ==>
            forall x: nat :: x < |s.starts| && s.starts[x] == 0 ==> ServedAfter(s.starts, x, 1))
      && (s.done == 6 ==> Gone(s.acts[i]))
      && (s.done == 0 || s.done == 6 ==> !s.acts[i].canceling)
      && (Reach(WorkQueueDemo(), evs, k).done == 6 ==> s.starts == Reach(WorkQueueDemo(), evs, k).starts)
  {
    var m := WorkQueueDemo();
    WorkQueueOrder();
    WorkQueueComplete();
    CountBounded(m, evs, |evs|, 0, 0, 1);
    assert CancelsEnd(m);
    if Reach(m, evs, |evs|).acts[i].canceling {
      RefusedOnlyInCancel(m, evs, |evs|, i);
    }
    if Reach(m, evs, |evs|).done <= 1 {
      ReachService(m, evs, |evs|, 0, 0, 1);
    }
    if Reach(m, evs, |evs|).done == 6 {
      QuietAfterExit(m, evs, |evs|, i);
    }
    if Reach(m, evs, k).done == 6 {
      NoStartAfterExit(m, evs, k, |evs|);
    }
  }

  /** In each of the three modules every reachable state has a continuation in which exit returns. */
  lemma {:induction false} EachExitCanReturn(m: Module, evs: seq<Event>) returns (more: seq<Event>)
    requires m in {IoctlDemo(), InterruptDemo(), WorkQueueDemo()}
    ensures Wired(m) && Reach(m, evs + more, |evs + more|).done == |m.exit|
  {
    IoctlWired();
    InterruptWired();
    WorkQueueWired();
    more := ExitCanReturn(m, evs);
  }

  /** The periodic activities: both timers of ioctl_demo, the timer of interrupt_processing, and the timer and
      the delayed work of work_queues. */
  predicate Periodic(m: Module, i: nat) {
    || (m == IoctlDemo() && (i == 0 || i == 1))
    || (m == InterruptDemo() && i == 0)
    || (m == WorkQueueDemo() && (i == 0 || i == 2))
  }

  /** Each of them fires any number of times while the module is loaded. */
  lemma {:induction false} PeriodicKeepsFiring(m: Module, i: nat, n: nat) returns (evs: seq<Event>)
    requires Periodic(m, i)
    ensures Wired(m) && Count(Reach(m, evs, |evs|).starts, i) == n && Reach(m, evs, |evs|).done == 0
  {
    IoctlWired();
    InterruptWired();
    WorkQueueWired();
    evs := KeepsFiring(m, i, |m.targets[i]| - 1, n);
  }

  /** interrupt_processing with its two teardown calls exchanged. */
  function SwappedInterruptDemo(): Module {
    InterruptDemo().(exit := [Drain(1), StopTimer(0)])
  }

  /** Exit has returned and activity 1 is still pending. */
  ghost predicate EndsWithWorkPending(m: Module, evs: seq<Event>)
    requires Wired(m) && |m.targets| == 2
  {
    var s := Reach(m, evs, |evs|);
    s.done == |m.exit| && s.acts[1].pending
  }

  /** The order matters: with the calls exchanged, exit can return with the work item still pending. */
  lemma {:induction false} SwappedOrderLeavesWork()
    ensures Wired(SwappedInterruptDemo())
    ensures exists evs :: EndsWithWorkPending(SwappedInterruptDemo(), evs)
  {
    var m := SwappedInterruptDemo();
    var evs := [Exit, Start(0), Advance(0), Advance(0), Advance(0), Exit];
    SwappedWired();
    TimerFires(m, evs);
    assert Reach(m, evs, 6) == Next(m, Reach(m, evs, 5), Exit);
    assert EndsWithWorkPending(m, evs);
  }

  lemma {:induction false} SwappedWired()
    ensures Wired(SwappedInterruptDemo())
  {
  }

  /** The drain finds nothing to wait for; then the timer fires and schedules the work. */
  lemma {:induction false} TimerFires(m: Module, evs: seq<Event>)
    requires m == SwappedInterruptDemo() && Wired(m)
    requires evs == [Exit, Start(0), Advance(0), Advance(0), Advance(0), Exit]
    ensures Reach(m, evs, 5)
         == State([Activity(true, false, NotRunning), Activity(true, false, NotRunning)], 1, [0])
  {
    var idle, armed := Activity(false, false, NotRunning), Activity(true, false, NotRunning);
    assert Init(m).acts == [armed, idle];
    assert Reach(m, evs, 1) == Next(m, Reach(m, evs, 0), Exit) == State([armed, idle], 1, []);
    assert Reach(m, evs, 2) == Next(m, Reach(m, evs, 1), Start(0))
        == State([Activity(false, false, At(0)), idle], 1, [0]);
    assert Reach(m, evs, 3) == Next(m, Reach(m, evs, 2), Advance(0))
        == State([Activity(false, false, At(1)), armed], 1, [0]);
    assert Reach(m, evs, 4) == Next(m, Reach(m, evs, 3), Advance(0))
        == State([Activity(true, false, At(2)), armed], 1, [0]);
    assert Reach(m, evs, 5) == Next(m, Reach(m, evs, 4), Advance(0));
  }
}

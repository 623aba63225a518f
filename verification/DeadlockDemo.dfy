/** Any number of processes that take two mutexes with trylock and back off.

    A run is a sequence of events; each event is one atomic step of one process, so the theorems
    range over every interleaving. `mutex_trylock` succeeds exactly when the mutex is free. */
module DeadlockDemo {

  const MAX_RETRIES: nat := 10

  /** Where a process is in `deadlock_demo_read`; `r` is the loop's retry counter. */
  datatype Pc =
    | Outside              // not in a call
    | TryA(r: nat)         // about to try resource_a
    | TryB(r: nat)         // holds a, about to try resource_b
    | BackOff(r: nat)      // holds a, could not get b, about to unlock a
    | Sleep(r: nat)        // about to sleep and count the retry
    | Both                 // safe_acquire_both_locks returned 0
    | BReleased            // release_both_locks has unlocked b
    | Busy                 // safe_acquire_both_locks returned -EBUSY

  datatype Mutex = Free | Held(holder: nat)

  datatype State = State(a: Mutex, b: Mutex, procs: seq<Pc>)

  /** `Call`: the process enters the read function with file position `pos`. `Step`: it takes one step. */
  datatype Event = Call(p: nat, pos: nat) | Step(p: nat)

  predicate HoldsA(pc: Pc) {
    pc.TryB? || pc.BackOff? || pc.Both? || pc.BReleased?
  }

  predicate HoldsB(pc: Pc) {
    pc.Both?
  }

  function Move(s: State, p: nat, pc: Pc): State
    requires p < |s.procs|
  {
    s.(procs := s.procs[p := pc])
  }

  function StepProc(s: State, p: nat): State
    requires p < |s.procs|
  {
    match s.procs[p]
    case Outside => s
    case TryA(r) => if s.a.Free? then Move(s.(a := Held(p)), p, TryB(r)) else Move(s, p, Sleep(r))
    case TryB(r) => if s.b.Free? then Move(s.(b := Held(p)), p, Both) else Move(s, p, BackOff(r))
    case BackOff(r) => Move(s.(a := Free), p, Sleep(r))
    case Sleep(r) => Move(s, p, if r + 1 < MAX_RETRIES then TryA(r + 1) else Busy)
    case Both => Move(s.(b := Free), p, BReleased)
    case BReleased => Move(s.(a := Free), p, Outside)
    case Busy => Move(s, p, Outside)
  }

  function Next(s: State, ev: Event): State {
    if ev.p >= |s.procs| then s
    else if ev.Step? then StepProc(s, ev.p)
    else if s.procs[ev.p].Outside? && ev.pos == 0 then Move(s, ev.p, TryA(0))
    else s
  }

  function Init(n: nat): State {
    State(Free, Free, seq(n, _ => Outside))
  }

  /** The state of `n` processes after the first `k` events. */
  function Reach(n: nat, evs: seq<Event>, k: nat): (s: State)
    requires k <= |evs|
    ensures |s.procs| == n
  {
    if k == 0 then Init(n) else Next(Reach(n, evs, k - 1), evs[k - 1])
  }

  // ---------------------------------------------------------------- the invariant

  /** Process `p` agrees with both mutexes and never backs off. */
  ghost predicate ProcOk(s: State, p: nat)
    requires p < |s.procs|
  {
    var pc := s.procs[p];
    && (HoldsA(pc) <==> s.a == Held(p))
    && (HoldsB(pc) <==> s.b == Held(p))
    && !pc.BackOff?
    && (pc.TryA? || pc.TryB? || pc.Sleep? ==> pc.r < MAX_RETRIES)
  }

  ghost predicate Inv(s: State) {
    && (forall p: nat :: p < |s.procs| ==> ProcOk(s, p))
    && (s.a.Held? ==> s.a.holder < |s.procs|) && (s.b.Held? ==> s.b.holder < |s.procs|)
  }

  lemma {:induction false} StepKeepsInv(s: State, p: nat)
    requires Inv(s) && p < |s.procs|
    ensures Inv(StepProc(s, p))
  {
    var t := StepProc(s, p);
    assert ProcOk(s, p);
    if s.procs[p].TryB? {
      SecondLockIsFree(s, p);
    }
    forall q: nat | q < |t.procs|
      ensures ProcOk(t, q)
    {
      assert ProcOk(s, q);
    }
  }

  /** The holder of b also holds a, so whoever holds a and wants b finds it free. */
  lemma {:induction false} SecondLockIsFree(s: State, p: nat)
    requires Inv(s) && p < |s.procs| && s.procs[p].TryB?
    ensures s.b.Free?
  {
    assert ProcOk(s, p);
    assert s.b.Held? ==> ProcOk(s, s.b.holder);
  }

  lemma {:induction false} CallKeepsInv(s: State, p: nat)
    requires Inv(s) && p < |s.procs| && s.procs[p].Outside?
    ensures Inv(Move(s, p, TryA(0)))
  {
    var t := Move(s, p, TryA(0));
    forall q: nat | q < |t.procs|
      ensures ProcOk(t, q)
    {
      assert ProcOk(s, q);
    }
  }

  lemma {:induction false} ReachInv(n: nat, evs: seq<Event>, k: nat)
    requires k <= |evs|
    ensures Inv(Reach(n, evs, k))
  {
    if k == 0 {
    } else {
      ReachInv(n, evs, k - 1);
      var s, ev := Reach(n, evs, k - 1), evs[k - 1];
      if ev.p < |s.procs| {
        if ev.Step? {
          StepKeepsInv(s, ev.p);
        } else if s.procs[ev.p].Outside? {
          CallKeepsInv(s, ev.p);
        }
      }
    }
  }

  // ---------------------------------------------------------------- safety, for every run

  /** In every reachable state each mutex has at most one holder, and the holder of b also holds a. */
  lemma {:induction false} MutualExclusion(n: nat, evs: seq<Event>, p: nat, q: nat)
    requires p < n && q < n
    ensures var s := Reach(n, evs, |evs|);
      && (HoldsA(s.procs[p]) && HoldsA(s.procs[q]) ==> p == q)
      && (HoldsB(s.procs[p]) && HoldsB(s.procs[q]) ==> p == q)
      && (s.b == Held(p) ==> s.a == Held(p))
  {
    var s := Reach(n, evs, |evs|);
    ReachInv(n, evs, |evs|);
    assert ProcOk(s, p) && ProcOk(s, q);
  }

  /** The second trylock never fails: the back-off release is unreachable. */
  lemma {:induction false} NeverBacksOff(n: nat, evs: seq<Event>, p: nat)
    requires p < n
    ensures var s := Reach(n, evs, |evs|);
      !s.procs[p].BackOff? && (s.procs[p].TryB? ==> s.b.Free?)
  {
    var s := Reach(n, evs, |evs|);
    ReachInv(n, evs, |evs|);
    assert ProcOk(s, p);
    if s.procs[p].TryB? {
      SecondLockIsFree(s, p);
    }
  }

  /** At event `e`, process `p` makes its attempt `r` at resource_a and another process holds it. */
  ghost predicate Refused(n: nat, evs: seq<Event>, p: nat, r: nat, e: nat) {
    && p < n && e < |evs| && evs[e] == Step(p)
    && var s := Reach(n, evs, e);
    s.procs[p] == TryA(r) && s.a.Held? && s.a.holder != p
  }

  ghost predicate LeftBy(n: nat, evs: seq<Event>, p: nat, m: nat) {
    p < n && m <= |evs| && Reach(n, evs, m).procs[p].Outside?
  }

  /** `es` are the events before `k` at which the attempts of one call of `p` failed, in order. */
  ghost predicate Refusals(n: nat, evs: seq<Event>, p: nat, es: seq<nat>, k: nat) {
    && (forall r: nat :: r < |es| ==> es[r] < k && Refused(n, evs, p, r, es[r]))
    && (forall r: nat :: r + 1 < |es| ==> es[r] < es[r + 1])
    && (es != [] ==> forall m: nat :: es[0] <= m <= k ==> !LeftBy(n, evs, p, m))
  }

  /** How many attempts of its call a process has failed. */
  function Failed(pc: Pc): nat {
    match pc
    case TryA(r) => r
    case TryB(r) => r
    case BackOff(r) => r
    case Sleep(r) => r + 1
    case Busy => MAX_RETRIES
    case _ => 0
  }

  lemma {:induction false} OneEventLater(n: nat, evs: seq<Event>, p: nat, es: seq<nat>, k: nat)
    requires k < |evs| && Refusals(n, evs, p, es, k) && !LeftBy(n, evs, p, k + 1)
    ensures Refusals(n, evs, p, es, k + 1)
  {
    forall r: nat | r < |es|
      ensures es[r] < k + 1 && Refused(n, evs, p, r, es[r])
    {
      assert es[r] < k && Refused(n, evs, p, r, es[r]);
    }
  }

  lemma {:induction false} OneMoreRefusal(n: nat, evs: seq<Event>, p: nat, es: seq<nat>, k: nat)
    requires k < |evs| && Refusals(n, evs, p, es, k) && Refused(n, evs, p, |es|, k)
    requires !LeftBy(n, evs, p, k) && !LeftBy(n, evs, p, k + 1)
    ensures Refusals(n, evs, p, es + [k], k + 1)
  {
    forall r: nat | r < |es + [k]|
      ensures (es + [k])[r] < k + 1 && Refused(n, evs, p, r, (es + [k])[r])
    {
      assert r < |es| ==> es[r] < k && Refused(n, evs, p, r, es[r]);
    }
  }

  /** Every failed attempt of a call is an event of the run at which another process held resource_a. */
  lemma {:induction false} FailedAttempts(n: nat, evs: seq<Event>, p: nat, k: nat) returns (es: seq<nat>)
    requires p < n && k <= |evs|
    ensures |es| == Failed(Reach(n, evs, k).procs[p]) && Refusals(n, evs, p, es, k)
  {
    es := [];
    if k == 0 {
    } else {
      var s, t := Reach(n, evs, k - 1), Reach(n, evs, k);
      ReachInv(n, evs, k - 1);
      assert ProcOk(s, p);
      if t.procs[p].TryA? || t.procs[p].TryB? || t.procs[p].Sleep? || t.procs[p].Busy? {
        if Failed(t.procs[p]) > 0 {
          es := FailedAttempts(n, evs, p, k - 1);
          AttemptsGrow(n, evs, p, es, k - 1);
          if Failed(t.procs[p]) > Failed(s.procs[p]) {
            es := es + [k - 1];
          }
        }
      } else {
        ReachInv(n, evs, k);
        assert ProcOk(t, p);
      }
    }
  }

  /** One event further, a call in progress has failed the same attempts, or the one at this event too. */
  lemma {:induction false} AttemptsGrow(n: nat, evs: seq<Event>, p: nat, es: seq<nat>, k: nat)
    requires p < n && k < |evs| && Inv(Reach(n, evs, k)) && Failed(Reach(n, evs, k + 1).procs[p]) > 0
    requires |es| == Failed(Reach(n, evs, k).procs[p]) && Refusals(n, evs, p, es, k)
    ensures var before, after := Failed(Reach(n, evs, k).procs[p]), Failed(Reach(n, evs, k + 1).procs[p]);
      || (after == before && Refusals(n, evs, p, es, k + 1))
      || (after == before + 1 && Refusals(n, evs, p, es + [k], k + 1))
  {
    var s, t := Reach(n, evs, k), Reach(n, evs, k + 1);
    assert ProcOk(s, p);
    assert !LeftBy(n, evs, p, k + 1);
    if Failed(t.procs[p]) == Failed(s.procs[p]) {
      OneEventLater(n, evs, p, es, k);
    } else {
      assert Refused(n, evs, p, |es|, k);
      OneMoreRefusal(n, evs, p, es, k);
    }
  }

  /** What the two results mean: 0 is returned holding both; -EBUSY is returned holding neither, and then
      there are ten events of this call, in order, at which attempts 0 to 9 found resource_a held by another
      process; outside the call nothing is held. */
  lemma {:induction false} ResultMeaning(n: nat, evs: seq<Event>, p: nat) returns (es: seq<nat>)
    requires p < n
    ensures var s := Reach(n, evs, |evs|);
      var pc := s.procs[p];
      && (pc.Both? ==> s.a == Held(p) && s.b == Held(p))
      && (pc.Busy? ==> s.a != Held(p) && s.b != Held(p))
      && (pc.Busy? ==> |es| == 10 && Refusals(n, evs, p, es, |evs|))
      && (pc.Outside? ==> s.a != Held(p) && s.b != Held(p))
  {
    ReachInv(n, evs, |evs|);
    assert ProcOk(Reach(n, evs, |evs|), p);
    es := FailedAttempts(n, evs, p, |evs|);
  }

  // ---------------------------------------------------------------- what a call does

  /** A read at position 0 starts the first attempt; at any later position it returns at once. */
  lemma {:induction false} CallStarts(n: nat, evs: seq<Event>, p: nat, pos: nat)
    requires p < n && Reach(n, evs, |evs|).procs[p].Outside?
    ensures var s := Reach(n, evs, |evs|);
      var t := Next(s, Call(p, pos));
      && (pos > 0 ==> t == s)
      && (pos == 0 ==> t.procs[p] == TryA(0) && t.a == s.a && t.b == s.b && |t.procs| == n)
      && (pos == 0 ==> forall q: nat :: q < n && q != p ==> t.procs[q] == s.procs[q])
  {
  }

  /** From every reachable state in which resource_a is free, a call takes both mutexes in two steps of its
      own, and two more steps release both and end it. */
  lemma {:induction false} FreeMeansAcquired(n: nat, evs: seq<Event>, p: nat)
    requires p < n && Reach(n, evs, |evs|).procs[p].Outside? && Reach(n, evs, |evs|).a.Free?
    ensures var s := Reach(n, evs, |evs|);
      var t := Next(Next(Next(s, Call(p, 0)), Step(p)), Step(p));
      var u := Next(Next(t, Step(p)), Step(p));
      && t.procs[p].Both? && t.a == Held(p) && t.b == Held(p)
      && u.procs[p].Outside? && u.a.Free? && u.b.Free?
  {
    var s := Reach(n, evs, |evs|);
    ReachInv(n, evs, |evs|);
    assert s.b.Held? ==> ProcOk(s, s.b.holder);
  }

  /** A call ends only with a result: after releasing both mutexes, or with -EBUSY. */
  lemma {:induction false} CallReturns(n: nat, evs: seq<Event>, p: nat, ev: Event)
    requires p < n && !Reach(n, evs, |evs|).procs[p].Outside? && Next(Reach(n, evs, |evs|), ev).procs[p].Outside?
    ensures ev == Step(p)
    ensures Reach(n, evs, |evs|).procs[p].BReleased? || Reach(n, evs, |evs|).procs[p].Busy?
  {
  }

  /** At event `e`, an attempt of process `p` finds resource_a free, and `p` stays in that call up to `k`. */
  ghost predicate Granted(n: nat, evs: seq<Event>, p: nat, e: nat, k: nat) {
    && p < n && e < k <= |evs| && evs[e] == Step(p)
    && Reach(n, evs, e).procs[p].TryA? && Reach(n, evs, e).a.Free?
    && forall m: nat :: e <= m <= k ==> !LeftBy(n, evs, p, m)
  }

  lemma {:induction false} GrantedLater(n: nat, evs: seq<Event>, p: nat, e: nat, k: nat)
    requires Granted(n, evs, p, e, k) && k < |evs| && !LeftBy(n, evs, p, k + 1)
    ensures Granted(n, evs, p, e, k + 1)
  {
  }

  /** Whoever holds resource_a was granted it at an event of its present call. */
  lemma {:induction false} HolderWasGranted(n: nat, evs: seq<Event>, p: nat, k: nat) returns (e: nat)
    requires p < n && k <= |evs| && HoldsA(Reach(n, evs, k).procs[p])
    ensures Granted(n, evs, p, e, k)
  {
    assert !LeftBy(n, evs, p, k);
    e := k - 1;
    if HoldsA(Reach(n, evs, k - 1).procs[p]) {
      e := HolderWasGranted(n, evs, p, k - 1);
      GrantedLater(n, evs, p, e, k - 1);
    } else {
      assert !LeftBy(n, evs, p, k - 1);
    }
  }

  /** Once granted, a call holds resource_a until it ends. */
  lemma {:induction false} GrantedHolds(n: nat, evs: seq<Event>, p: nat, e: nat, k: nat)
    requires Granted(n, evs, p, e, k)
    ensures HoldsA(Reach(n, evs, k).procs[p])
    decreases k
  {
    assert !LeftBy(n, evs, p, k);
    if k == e + 1 {
    } else {
      GrantedHolds(n, evs, p, e, k - 1);
      var s := Reach(n, evs, k - 1);
      ReachInv(n, evs, k - 1);
      assert ProcOk(s, p);
    }
  }

  /** An acquisition that is decided succeeded exactly when some attempt of the call found resource_a free. */
  lemma {:induction false} AcquiredIffFree(n: nat, evs: seq<Event>, p: nat)
    requires p < n
    requires var pc := Reach(n, evs, |evs|).procs[p];
      pc.Both? || pc.Busy?
    ensures Reach(n, evs, |evs|).procs[p].Both? <==> exists e: nat :: Granted(n, evs, p, e, |evs|)
  {
    if Reach(n, evs, |evs|).procs[p].Both? {
      var e := HolderWasGranted(n, evs, p, |evs|);
    } else if e: nat :| Granted(n, evs, p, e, |evs|) {
      GrantedHolds(n, evs, p, e, |evs|);
    }
  }

  // ---------------------------------------------------------------- every call ends

  /** An upper bound on the own steps a process still needs to leave its call. */
  function Rank(pc: Pc): int {
    match pc
    case TryA(r) => 2 * (MAX_RETRIES - r) + 2
    case Sleep(r) => 2 * (MAX_RETRIES - r) + 1
    case BackOff(r) => 2 * (MAX_RETRIES - r) + 2
    case TryB(_) => 3
    case Both => 2
    case BReleased => 1
    case Busy => 1
    case Outside => 0
  }

  /** The steps process `p` takes among events i, ..., j - 1. */
  function OwnSteps(evs: seq<Event>, p: nat, i: nat, j: nat): nat
    requires i <= j <= |evs|
  {
    if i == j then 0 else OwnSteps(evs, p, i, j - 1) + if evs[j - 1] == Step(p) then 1 else 0
  }

  lemma {:induction false} RankFalls(s: State, ev: Event, p: nat)
    requires Inv(s) && p < |s.procs| && !s.procs[p].Outside?
    ensures Rank(Next(s, ev).procs[p]) + (if ev == Step(p) then 1 else 0) <= Rank(s.procs[p])
  {
    assert ProcOk(s, p);
    if s.procs[p].TryB? {
      SecondLockIsFree(s, p);
    }
  }

  lemma {:induction false} RankAfter(n: nat, evs: seq<Event>, p: nat, i: nat, j: nat)
    requires p < n && i <= j <= |evs|
    requires forall m: nat :: i <= m < j ==> !LeftBy(n, evs, p, m)
    ensures Rank(Reach(n, evs, j).procs[p]) + OwnSteps(evs, p, i, j) <= Rank(Reach(n, evs, i).procs[p])
    decreases j
  {
    if i < j {
      RankAfter(n, evs, p, i, j - 1);
      ReachInv(n, evs, j - 1);
      assert !LeftBy(n, evs, p, j - 1);
      RankFalls(Reach(n, evs, j - 1), evs[j - 1], p);
    }
  }

  /** Under any schedule a call is over once the process has taken 22 steps of its own: nobody waits for ever. */
  lemma {:induction false} CallEnds(n: nat, evs: seq<Event>, p: nat, i: nat, j: nat)
    requires p < n && i <= j <= |evs|
    requires Reach(n, evs, i).procs[p] == TryA(0)
    requires OwnSteps(evs, p, i, j) >= 22
    ensures exists m: nat :: i < m <= j && LeftBy(n, evs, p, m)
  {
    if forall m: nat :: i <= m < j ==> !LeftBy(n, evs, p, m) {
      RankAfter(n, evs, p, i, j);
      RankIsNatural(n, evs, p, j);
      assert LeftBy(n, evs, p, j);
    } else {
      assert !LeftBy(n, evs, p, i);
    }
  }

  lemma {:induction false} RankIsNatural(n: nat, evs: seq<Event>, p: nat, j: nat)
    requires p < n && j <= |evs|
    ensures Rank(Reach(n, evs, j).procs[p]) >= 0
    ensures Rank(Reach(n, evs, j).procs[p]) == 0 ==> Reach(n, evs, j).procs[p].Outside?
  {
    ReachInv(n, evs, j);
    assert ProcOk(Reach(n, evs, j), p);
  }

  /** The acquisition is decided, one way or the other. */
  predicate Decided(pc: Pc) {
    pc.Both? || pc.BReleased? || pc.Busy? || pc.Outside?
  }

  /** Under any schedule the acquisition is decided once the process has taken 20 steps of its own. */
  lemma {:induction false} AcquireDecides(n: nat, evs: seq<Event>, p: nat, i: nat, j: nat)
    requires p < n && i <= j <= |evs|
    requires Reach(n, evs, i).procs[p] == TryA(0)
    requires OwnSteps(evs, p, i, j) >= 20
    ensures exists m: nat :: i < m <= j && Decided(Reach(n, evs, m).procs[p])
  {
    if forall m: nat :: i <= m < j ==> !LeftBy(n, evs, p, m) {
      RankAfter(n, evs, p, i, j);
      ReachInv(n, evs, j);
      assert ProcOk(Reach(n, evs, j), p);
      assert Decided(Reach(n, evs, j).procs[p]);
    } else {
      var m: nat :| i <= m < j && LeftBy(n, evs, p, m);
      assert Decided(Reach(n, evs, m).procs[p]);
    }
  }
}

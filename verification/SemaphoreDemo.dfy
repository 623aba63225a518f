/** A pool of three permits shared by any number of processes, and a mutex-protected accumulator.

    Each event is one atomic step of one process; `down_interruptible` takes a permit when one is free,
    and a waiter may be interrupted at any time. */
module SemaphoreDemo {
  import opened Counting

  const MAX_RESOURCES: nat := 3

  /** Where a process is in `semaphore_demo_read`. */
  datatype Pc =
    | Outside
    | Waiting                          // in down_interruptible
    | Granted                          // holds a permit, not counted yet
    | Counted(users: int)              // has read its user count
    | IdRead(users: int, id: int)      // has read resource_id_counter, not written it back yet
    | Using(users: int, id: int)
    | Uncounted                        // has left the count, still holds the permit

  datatype State = State(permits: int, active: int, nextId: int, procs: seq<Pc>)

  /** `Call` enters with file position `pos`; `Interrupt` makes a waiter return -ERESTARTSYS. */
  datatype Event = Call(p: nat, pos: nat) | Step(p: nat) | Interrupt(p: nat)

  predicate Holds(pc: Pc) {
    pc.Granted? || InCount(pc) || pc.Uncounted?
  }

  predicate InCount(pc: Pc) {
    pc.Counted? || pc.IdRead? || pc.Using?
  }

  function Move(s: State, p: nat, pc: Pc): State
    requires p < |s.procs|
  {
    s.(procs := s.procs[p := pc])
  }

  function StepProc(s: State, p: nat): State
    requires p < |s.procs|
  {
    match s.procs[p]
    case Outside => s
    case Waiting => if s.permits > 0 then Move(s.(permits := s.permits - 1), p, Granted) else s
    case Granted => Move(s.(active := s.active + 1), p, Counted(s.active + 1))
    case Counted(u) => Move(s, p, IdRead(u, s.nextId))
    case IdRead(u, id) => Move(s.(nextId := id + 1), p, Using(u, id))
    case Using(_, _) => Move(s.(active := s.active - 1), p, Uncounted)
    case Uncounted => Move(s.(permits := s.permits + 1), p, Outside)
  }

  function Next(s: State, ev: Event): State {
    if ev.p >= |s.procs| then s
    else
      match ev
      case Step(p) => StepProc(s, p)
      case Call(p, pos) => if s.procs[p].Outside? && pos == 0 then Move(s, p, Waiting) else s
      case Interrupt(p) => if s.procs[p].Waiting? then Move(s, p, Outside) else s
  }

  function Init(n: nat): State {
    State(MAX_RESOURCES, 0, 1, seq(n, _ => Outside))
  }

  function Reach(n: nat, evs: seq<Event>, k: nat): (s: State)
    requires k <= |evs|
    ensures |s.procs| == n
  {
    if k == 0 then Init(n) else Next(Reach(n, evs, k - 1), evs[k - 1])
  }

  // ---------------------------------------------------------------- counting processes

  /** How many of the first `k` processes hold a permit. */
  function Holders(procs: seq<Pc>, k: nat): nat
    requires k <= |procs|
  {
    CountIf(Holds, procs, k)
  }

  /** How many of the first `k` processes are in the user count. */
  function Users(procs: seq<Pc>, k: nat): nat
    requires k <= |procs|
  {
    CountIf(InCount, procs, k)
  }

  /** A process that holds a permit without being counted keeps the two counts apart. */
  lemma {:induction false} UncountedHolder(procs: seq<Pc>, p: nat, k: nat)
    requires p < k <= |procs| && Holds(procs[p]) && !InCount(procs[p])
    ensures Users(procs, k) < Holders(procs, k)
  {
    CountStronger(InCount, Holds, procs, k);
  }

  // ---------------------------------------------------------------- the invariant

  predicate ReportOk(pc: Pc) {
    InCount(pc) ==> 1 <= pc.users <= MAX_RESOURCES
  }

  ghost predicate Inv(s: State) {
    var n := |s.procs|;
    && s.permits >= 0 && s.permits + Holders(s.procs, n) == MAX_RESOURCES
    && s.active == Users(s.procs, n)
    && forall p: nat :: p < n ==> ReportOk(s.procs[p])
  }

  lemma {:induction false} NextKeepsInv(s: State, ev: Event)
    requires Inv(s)
    ensures Inv(Next(s, ev))
  {
    var t := Next(s, ev);
    if t != s {
      var p, n := ev.p, |s.procs|;
      CountAfterUpdate(Holds, s.procs, p, t.procs[p], n);
      CountAfterUpdate(InCount, s.procs, p, t.procs[p], n);
      assert t.procs == s.procs[p := t.procs[p]];
      assert ReportOk(s.procs[p]);
      if s.procs[p].Granted? {
        UncountedHolder(s.procs, p, n);
      }
      forall q: nat | q < n
        ensures ReportOk(t.procs[q])
      {
        assert ReportOk(s.procs[q]);
      }
    }
  }

  /** In every reachable state, interrupted waiters included: free permits and permit holders add up to
      three, the count of users is exact and never exceeds the holders, and every reported count is 1, 2 or 3. */
  lemma {:induction false} PermitsConserved(n: nat, evs: seq<Event>, k: nat)
    requires k <= |evs|
    ensures var s := Reach(n, evs, k);
      && Inv(s)
      && s.permits + Holders(s.procs, n) == 3 && 0 <= s.permits
      && s.active == Users(s.procs, n) <= Holders(s.procs, n)
      && forall p: nat :: p < n && InCount(s.procs[p]) ==> 1 <= s.procs[p].users <= 3
  {
    if k > 0 {
      PermitsConserved(n, evs, k - 1);
      NextKeepsInv(Reach(n, evs, k - 1), evs[k - 1]);
    } else {
      CountNone(Holds, Init(n).procs, n);
      CountNone(InCount, Init(n).procs, n);
    }
    var s := Reach(n, evs, k);
    CountStronger(InCount, Holds, s.procs, n);
    assert forall p: nat :: p < n ==> ReportOk(s.procs[p]);
  }

  /** No permit is ever lost: whenever nobody is between `down` and `up`, all three are free again. */
  lemma {:induction false} AllReturned(n: nat, evs: seq<Event>)
    requires forall p: nat :: p < n ==> !Holds(Reach(n, evs, |evs|).procs[p])
    ensures Reach(n, evs, |evs|).permits == 3 && Reach(n, evs, |evs|).active == 0
  {
    PermitsConserved(n, evs, |evs|);
    CountNone(Holds, Reach(n, evs, |evs|).procs, n);
  }

  /** At event `e` process `p`, which has a permit, enters the count, and it stays in it up to `k`. */
  ghost predicate EntersAt(n: nat, evs: seq<Event>, p: nat, e: nat, k: nat) {
    && p < n && e < k <= |evs| && evs[e] == Step(p) && Reach(n, evs, e).procs[p].Granted?
    && forall m: nat :: e < m <= k ==> CountedAt(n, evs, p, m)
  }

  ghost predicate CountedAt(n: nat, evs: seq<Event>, p: nat, m: nat) {
    p < n && m <= |evs| && InCount(Reach(n, evs, m).procs[p])
  }

  lemma {:induction false} CountStep(s: State, ev: Event, p: nat)
    requires p < |s.procs| && p < |Next(s, ev).procs| && InCount(Next(s, ev).procs[p])
    ensures var users := Next(s, ev).procs[p].users;
      || (InCount(s.procs[p]) && s.procs[p].users == users)
      || (s.procs[p].Granted? && ev == Step(p) && users == s.active + 1)
  {
  }

  lemma {:induction false} EntersLater(n: nat, evs: seq<Event>, p: nat, e: nat, k: nat)
    requires EntersAt(n, evs, p, e, k) && CountedAt(n, evs, p, k + 1)
    ensures EntersAt(n, evs, p, e, k + 1)
  {
  }

  /** The count a process reports is the number of processes in the count just after it entered itself. */
  lemma {:induction false} ReportIsCount(n: nat, evs: seq<Event>, p: nat, k: nat) returns (e: nat)
    requires p < n && k <= |evs| && InCount(Reach(n, evs, k).procs[p])
    ensures EntersAt(n, evs, p, e, k)
    ensures Reach(n, evs, k).procs[p].users == Users(Reach(n, evs, e + 1).procs, n)
  {
    assert CountedAt(n, evs, p, k);
    e := k - 1;
    CountStep(Reach(n, evs, k - 1), evs[k - 1], p);
    if InCount(Reach(n, evs, k - 1).procs[p]) {
      e := ReportIsCount(n, evs, p, k - 1);
      EntersLater(n, evs, p, e, k - 1);
    } else {
      PermitsConserved(n, evs, k - 1);
      PermitsConserved(n, evs, k);
    }
  }

  /** A read at position 0 waits for a permit; at any later position it returns at once. */
  lemma {:induction false} CallStarts(n: nat, evs: seq<Event>, p: nat, pos: nat)
    requires p < n && Reach(n, evs, |evs|).procs[p].Outside?
    ensures var s := Reach(n, evs, |evs|);
      var t := Next(s, Call(p, pos));
      && (pos > 0 ==> t == s)
      && (pos == 0 ==> t == s.(procs := s.procs[p := Waiting]))
  {
  }

  /** From every reachable state with a free permit, a call gets one, reports one user more than there were,
      and gives the permit back; without a free permit it goes on waiting, and an interrupted waiter leaves
      with nothing. */
  lemma {:induction false} FreePermitMeansUse(n: nat, evs: seq<Event>, p: nat)
    requires p < n && Reach(n, evs, |evs|).procs[p].Waiting?
    ensures var s := Reach(n, evs, |evs|);
      var t := Next(Next(s, Step(p)), Step(p));
      var u := Next(Next(Next(Next(t, Step(p)), Step(p)), Step(p)), Step(p));
      && (s.permits > 0 ==> t.procs[p] == Counted(s.active + 1) && t.permits == s.permits - 1)
      && (s.permits > 0 ==> u.procs[p].Outside? && u.permits == s.permits && u.active == s.active)
      && (s.permits > 0 ==> Next(Next(t, Step(p)), Step(p)).procs[p] == Using(s.active + 1, s.nextId))
      && (s.permits > 0 ==> u.nextId == s.nextId + 1)
      && (s.permits == 0 ==> Next(s, Step(p)) == s)
      && Next(s, Interrupt(p)) == s.(procs := s.procs[p := Outside])
  {
  }

  // ---------------------------------------------------------------- mutex_demo_read

  /** Where a process is in `mutex_demo_read`. */
  datatype MutexPc = Away | Wants | Locked | AddedPid | NamedPid | Copied(data: int, message: nat)

  /** What a finished call reports: who made it, and the data and message it copied. */
  datatype Report = Report(pid: nat, data: int, message: nat)

  /** `owner` is the process in the critical section, -1 for none; `message` is the pid it names. */
  datatype Shared = Shared(owner: int, data: int, message: nat, procs: seq<MutexPc>, reports: seq<Report>)

  datatype MutexEvent = Enter(p: nat, pos: nat) | Run(p: nat) | Signal(p: nat)

  function Go(s: Shared, p: nat, pc: MutexPc): Shared
    requires p < |s.procs|
  {
    s.(procs := s.procs[p := pc])
  }

  function RunProc(s: Shared, p: nat): Shared
    requires p < |s.procs|
  {
    match s.procs[p]
    case Away => s
    case Wants => if s.owner == -1 then Go(s.(owner := p), p, Locked) else s
    case Locked => Go(s.(data := s.data + p % 100), p, AddedPid)
    case AddedPid => Go(s.(message := p), p, NamedPid)
    case NamedPid => Go(s, p, Copied(s.data, s.message))
    case Copied(d, m) => Go(s.(owner := -1, reports := s.reports + [Report(p, d, m)]), p, Away)
  }

  function NextShared(s: Shared, ev: MutexEvent): Shared {
    if ev.p >= |s.procs| then s
    else
      match ev
      case Run(p) => RunProc(s, p)
      case Enter(p, pos) => if s.procs[p].Away? && pos == 0 then Go(s, p, Wants) else s
      case Signal(p) => if s.procs[p].Wants? then Go(s, p, Away) else s
  }

  /** The process number is used as its pid. */
  function ReachShared(n: nat, evs: seq<MutexEvent>, k: nat): (s: Shared)
    requires k <= |evs|
    ensures |s.procs| == n
  {
    if k == 0 then Shared(-1, 0, 0, seq(n, _ => Away), []) else NextShared(ReachShared(n, evs, k - 1), evs[k - 1])
  }

  predicate InSection(pc: MutexPc) {
    !pc.Away? && !pc.Wants?
  }

  /** The accumulator after the first `k` calls, in the order in which they finished. */
  function Total(rs: seq<Report>, k: nat): int
    requires k <= |rs|
  {
    if k == 0 then 0 else Total(rs, k - 1) + rs[k - 1].pid % 100
  }

  ghost predicate SectionOk(s: Shared, p: nat)
    requires p < |s.procs|
  {
    var pc, done := s.procs[p], Total(s.reports, |s.reports|);
    && (InSection(pc) <==> s.owner == p)
    && (pc.Locked? ==> s.data == done)
    && (pc.AddedPid? || pc.NamedPid? || pc.Copied? ==> s.data == done + p % 100)
    && (pc.NamedPid? || pc.Copied? ==> s.message == p)
    && (pc.Copied? ==> pc.data == s.data && pc.message == p)
  }

  ghost predicate ReportExact(rs: seq<Report>, k: nat)
    requires k < |rs|
  {
    rs[k].data == Total(rs, k + 1) && rs[k].message == rs[k].pid
  }

  ghost predicate SharedInv(s: Shared) {
    && (forall p: nat :: p < |s.procs| ==> SectionOk(s, p))
    && -1 <= s.owner < |s.procs|
    && (s.owner == -1 ==> s.data == Total(s.reports, |s.reports|))
    && forall k: nat :: k < |s.reports| ==> ReportExact(s.reports, k)
  }

  lemma {:induction false} TotalPrefix(rs: seq<Report>, r: Report, k: nat)
    requires k <= |rs|
    ensures Total(rs + [r], k) == Total(rs, k)
  {
    if k == 0 {
    } else {
      TotalPrefix(rs, r, k - 1);
    }
  }

  lemma {:induction false} ReportAdded(rs: seq<Report>, r: Report)
    requires forall k: nat :: k < |rs| ==> ReportExact(rs, k)
    requires r.data == Total(rs, |rs|) + r.pid % 100 && r.message == r.pid
    ensures forall k: nat :: k < |rs + [r]| ==> ReportExact(rs + [r], k)
    ensures Total(rs + [r], |rs + [r]|) == r.data
  {
    var all := rs + [r];
    TotalPrefix(rs, r, |rs|);
    forall k: nat | k < |all|
      ensures ReportExact(all, k)
    {
      if k < |rs| {
        assert ReportExact(rs, k);
        TotalPrefix(rs, r, k + 1);
      }
    }
  }

  lemma {:induction false} NextKeepsShared(s: Shared, ev: MutexEvent)
    requires SharedInv(s)
    ensures SharedInv(NextShared(s, ev))
  {
    var t := NextShared(s, ev);
    if t != s {
      var p := ev.p;
      assert SectionOk(s, p);
      if ev.Run? && s.procs[p].Copied? {
        ReportAdded(s.reports, Report(p, s.procs[p].data, s.procs[p].message));
      }
      forall q: nat | q < |t.procs|
        ensures SectionOk(t, q)
      {
        assert SectionOk(s, q);
      }
    }
  }

  /** In every run, the k-th call to finish reports the sum of the contributions of the first k calls, its
      own included, and a message that names its own process: finishing order is a linearization. */
  lemma {:induction false} MutexLinearizes(n: nat, evs: seq<MutexEvent>, m: nat)
    requires m <= |evs|
    ensures var s := ReachShared(n, evs, m);
      && SharedInv(s)
      && (forall k: nat :: k < |s.reports| ==> ReportExact(s.reports, k))
      && (s.owner == -1 ==> s.data == Total(s.reports, |s.reports|))
  {
    if m == 0 {
    } else {
      MutexLinearizes(n, evs, m - 1);
      NextKeepsShared(ReachShared(n, evs, m - 1), evs[m - 1]);
    }
  }

  /** Event `f` is the step at which the process that report `i` names leaves the mutex. */
  ghost predicate ReportedAt(n: nat, evs: seq<MutexEvent>, f: nat, i: nat) {
    && f < |evs| && evs[f].Run? && evs[f].p < n
    && |ReachShared(n, evs, f).reports| == i && ReachShared(n, evs, f).procs[evs[f].p].Copied?
    && i < |ReachShared(n, evs, |evs|).reports| && ReachShared(n, evs, |evs|).reports[i].pid == evs[f].p
  }

  lemma {:induction false} ReportsGrow(n: nat, evs: seq<MutexEvent>, m: nat, k: nat)
    requires m <= k <= |evs|
    ensures ReachShared(n, evs, m).reports <= ReachShared(n, evs, k).reports
    decreases k
  {
    if m == k {
    } else {
      ReportsGrow(n, evs, m, k - 1);
    }
  }

  lemma {:induction false} FindReport(n: nat, evs: seq<MutexEvent>, k: nat, i: nat) returns (f: nat)
    requires k <= |evs| && i < |ReachShared(n, evs, k).reports|
    ensures f < k && evs[f].Run? && evs[f].p < n && |ReachShared(n, evs, f).reports| == i
    ensures ReachShared(n, evs, f).procs[evs[f].p].Copied?
    ensures |ReachShared(n, evs, f + 1).reports| == i + 1 && ReachShared(n, evs, f + 1).reports[i].pid == evs[f].p
  {
    f := k - 1;
    if i < |ReachShared(n, evs, k - 1).reports| {
      f := FindReport(n, evs, k - 1, i);
    }
  }

  /** Each report was made by the process it names, at the event at which that process left the mutex. */
  lemma {:induction false} ReportsAreCalls(n: nat, evs: seq<MutexEvent>, i: nat) returns (f: nat)
    requires i < |ReachShared(n, evs, |evs|).reports|
    ensures ReportedAt(n, evs, f, i)
  {
    f := FindReport(n, evs, |evs|, i);
    ReportsGrow(n, evs, f + 1, |evs|);
  }

  /** From every reachable state with the mutex free, a call adds its pid modulo 100 to the shared data and
      reports the new value with its own message; an interrupted waiter leaves everything as it was. */
  lemma {:induction false} FreeMutexMeansUpdate(n: nat, evs: seq<MutexEvent>, p: nat)
    requires p < n && ReachShared(n, evs, |evs|).procs[p].Away? && ReachShared(n, evs, |evs|).owner == -1
    ensures var s := ReachShared(n, evs, |evs|);
      var t := NextShared(NextShared(NextShared(s, Enter(p, 0)), Run(p)), Run(p));
      var u := NextShared(NextShared(NextShared(t, Run(p)), Run(p)), Run(p));
      && u.data == s.data + p % 100 && u.reports == s.reports + [Report(p, s.data + p % 100, p)]
      && u.owner == -1 && u.procs[p].Away?
      && NextShared(NextShared(s, Enter(p, 0)), Signal(p)) == s
      && forall pos: nat :: pos > 0 ==> NextShared(s, Enter(p, pos)) == s
  {
    var s := ReachShared(n, evs, |evs|);
    assert s.procs[p := Wants][p := Away] == s.procs;
  }
}

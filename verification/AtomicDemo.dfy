/** Concurrent commands on one 32-bit atomic counter.

    Each atomic operation is one step; steps of any number of processes interleave. A log of effects, kept
    beside the counter, says what each step did to it; the reference is the value of that log over the
    unbounded integers. */
module AtomicDemo {
  import opened Counting

  const TWO_31: int := 0x8000_0000
  const TWO_32: int := 0x1_0000_0000

  type Int32 = x: int | -TWO_31 <= x < TWO_31

  function Wrap32(x: int): (r: Int32)
    ensures -TWO_31 <= x < TWO_31 ==> r == x
  {
    (x + TWO_31) % TWO_32 - TWO_31
  }

  /** The commands that touch this counter; `Other` is any other write that is counted, known or not. */
  datatype Command =
    | Inc | Dec | Plus(v: Int32) | Minus(v: Int32) | Set(v: Int32) | Xchg(v: Int32) | CmpXchg(v: Int32)
    | DecAndTest | IncAndTest | MinusAndTest(v: Int32) | PlusNegative(v: Int32)
    | Other

  /** A write by process `p`; when it arrived there were `before` reports and `began` effects. */
  datatype Call = Call(p: nat, cmd: Command, before: nat, began: nat)

  datatype Pc =
    | Outside
    | Parsed(call: Call)
    | Counted(call: Call)                             // operations_count has been incremented
    | OldRead(call: Call, seen: Int32, since: nat)    // cmpxchg has read the counter
    | Tested(call: Call, flag: bool, number: nat)     // the test is done, the message is not printed yet

  datatype Effect = Add(p: nat, d: int) | Put(p: nat, v: Int32)

  /** What a finished write reports. `number` is how many effects there were just after its own step. */
  datatype Report =
    | Returned(call: Call, number: nat, result: Int32)
    | Swapped(call: Call, since: nat, seen: Int32, number: nat, found: Int32)
    | Flagged(call: Call, number: nat, flag: bool, shownAt: nat, shown: Int32)
    | Untouched(call: Call)

  datatype State = State(counter: Int32, operations: Int32, procs: seq<Pc>, effects: seq<Effect>, reports: seq<Report>)

  datatype Event = Write(p: nat, cmd: Command) | Step(p: nat)

  function Move(s: State, p: nat, pc: Pc): State
    requires p < |s.procs|
  {
    s.(procs := s.procs[p := pc])
  }

  /** One atomic addition, and one atomic store. */
  function AddTo(s: State, p: nat, d: int): State {
    s.(counter := Wrap32(s.counter + d), effects := s.effects + [Add(p, d)])
  }

  function Store(s: State, p: nat, v: Int32): State {
    s.(counter := v, effects := s.effects + [Put(p, v)])
  }

  function Finish(s: State, p: nat, r: Report): State
    requires p < |s.procs|
  {
    Move(s.(reports := s.reports + [r]), p, Outside)
  }

  function AddReturn(s: State, p: nat, c: Call, d: int): State
    requires p < |s.procs|
  {
    var t := AddTo(s, p, d);
    Finish(t, p, Returned(c, |t.effects|, t.counter))
  }

  function AddTest(s: State, p: nat, c: Call, d: int, negative: bool): State
    requires p < |s.procs|
  {
    var t := AddTo(s, p, d);
    Move(t, p, Tested(c, if negative then t.counter < 0 else t.counter == 0, |t.effects|))
  }

  function StoreReturn(s: State, p: nat, c: Call, v: Int32, result: Int32): State
    requires p < |s.procs|
  {
    Finish(Store(s, p, v), p, Returned(c, |s.effects| + 1, result))
  }

  function Execute(s: State, p: nat, c: Call): State
    requires p < |s.procs|
  {
    match c.cmd
    case Inc => AddReturn(s, p, c, 1)
    case Dec => AddReturn(s, p, c, -1)
    case Plus(v) => AddReturn(s, p, c, v)
    case Minus(v) => AddReturn(s, p, c, 0 - v)
    case Set(v) => StoreReturn(s, p, c, v, v)
    case Xchg(v) => StoreReturn(s, p, c, v, s.counter)
    case CmpXchg(v) => Move(s, p, OldRead(c, s.counter, |s.effects|))
    case DecAndTest => AddTest(s, p, c, -1, false)
    case IncAndTest => AddTest(s, p, c, 1, false)
    case MinusAndTest(v) => AddTest(s, p, c, 0 - v, false)
    case PlusNegative(v) => AddTest(s, p, c, v, true)
    case Other => Finish(s, p, Untouched(c))
  }

  /** The second half of cmpxchg. */
  function Exchange(s: State, p: nat, c: Call, seen: Int32, since: nat): State
    requires p < |s.procs| && c.cmd.CmpXchg?
  {
    var t := if s.counter == seen then Store(s, p, c.cmd.v) else s;
    Finish(t, p, Swapped(c, since, seen, |t.effects|, s.counter))
  }

  function StepProc(s: State, p: nat): State
    requires p < |s.procs|
  {
    match s.procs[p]
    case Outside => s
    case Parsed(c) => Move(s.(operations := Wrap32(s.operations + 1)), p, Counted(c))
    case Counted(c) => Execute(s, p, c)
    case OldRead(c, seen, since) => if c.cmd.CmpXchg? then Exchange(s, p, c, seen, since) else s
    case Tested(c, flag, number) => Finish(s, p, Flagged(c, number, flag, |s.effects|, s.counter))
  }

  function Next(s: State, ev: Event): State {
    if ev.p >= |s.procs| then s
    else
      match ev
      case Step(p) => StepProc(s, p)
      case Write(p, cmd) =>
        if s.procs[p].Outside? then Move(s, p, Parsed(Call(p, cmd, |s.reports|, |s.effects|))) else s
  }

  function Reach(n: nat, evs: seq<Event>, k: nat): (s: State)
    requires k <= |evs|
    ensures |s.procs| == n
  {
    if k == 0 then State(0, 0, seq(n, _ => Outside), [], []) else Next(Reach(n, evs, k - 1), evs[k - 1])
  }

  // ---------------------------------------------------------------- the reference

  /** The unbounded value after the first `k` effects. */
  function Value(effects: seq<Effect>, k: nat): int
    requires k <= |effects|
  {
    if k == 0 then 0
    else
      match effects[k - 1]
      case Add(_, d) => Value(effects, k - 1) + d
      case Put(_, v) => v
  }

  predicate Stores(cmd: Command) {
    cmd.Set? || cmd.Xchg? || cmd.CmpXchg?
  }

  predicate Tests(cmd: Command) {
    cmd.DecAndTest? || cmd.IncAndTest? || cmd.MinusAndTest? || cmd.PlusNegative?
  }

  /** What a command that does not store adds. */
  function Delta(cmd: Command): int {
    match cmd
    case Inc | IncAndTest => 1
    case Dec | DecAndTest => -1
    case Plus(v) => v
    case PlusNegative(v) => v
    case Minus(v) => 0 - v
    case MinusAndTest(v) => 0 - v
    case _ => 0
  }

  /** What a call stands for: the effect it must have if it has one. */
  function Meaning(c: Call): Effect {
    if Stores(c.cmd) then Put(c.p, c.cmd.v) else Add(c.p, Delta(c.cmd))
  }

  /** Process `p` has no effect among effects `a` to `b`. */
  ghost predicate Absent(effects: seq<Effect>, p: nat, a: nat, b: nat)
    requires b <= |effects|
  {
    forall i: nat :: a <= i < b ==> effects[i].p != p
  }

  /** Effect `number - 1` is the one call `c` stands for, and it came after the call. */
  ghost predicate EffectOf(effects: seq<Effect>, c: Call, number: nat) {
    c.began < number <= |effects| && effects[number - 1] == Meaning(c)
  }

  ghost predicate FlagOk(effects: seq<Effect>, c: Call, number: nat, flag: bool) {
    && EffectOf(effects, c, number)
    && Tests(c.cmd)
    && var now := Wrap32(Value(effects, number));
    flag == if c.cmd.PlusNegative? then now < 0 else now == 0
  }

  /** What a report promises: its own effect is the one its command stands for, and every value it mentions
      is the wrapped reference value at a definite point of the log, after the call arrived. */
  ghost predicate ReportOk(effects: seq<Effect>, r: Report) {
    match r
    case Returned(c, number, result) =>
      && EffectOf(effects, c, number)
      && !Tests(c.cmd) && !c.cmd.CmpXchg? && !c.cmd.Other?
      && result == Wrap32(Value(effects, if c.cmd.Xchg? then number - 1 else number))
    case Swapped(c, since, seen, number, found) =>
      var upTo := if found == seen then number - 1 else number;
      && c.cmd.CmpXchg? && c.began <= since <= upTo && number <= |effects|
      && seen == Wrap32(Value(effects, since)) && found == Wrap32(Value(effects, upTo))
      && Absent(effects, c.p, since, upTo)
      && (found == seen ==> EffectOf(effects, c, number))
    case Flagged(c, number, flag, shownAt, shown) =>
      && FlagOk(effects, c, number, flag)
      && number <= shownAt <= |effects| && shown == Wrap32(Value(effects, shownAt))
    case Untouched(c) => c.cmd.Other?
  }

  ghost predicate ProcOk(effects: seq<Effect>, p: nat, pc: Pc) {
    && (pc.Outside? || (pc.call.p == p && pc.call.began <= |effects|))
    && match pc
       case OldRead(c, seen, since) =>
         && c.cmd.CmpXchg? && c.began <= since <= |effects|
         && seen == Wrap32(Value(effects, since)) && Absent(effects, p, since, |effects|)
       case Tested(c, flag, number) => FlagOk(effects, c, number, flag)
       case _ => true
  }

  // ---------------------------------------------------------------- order and ownership

  /** The point of the log at which a finished call takes effect, or is seen to fail. */
  function Number(r: Report): nat {
    if r.Untouched? then 0 else r.number
  }

  predicate HasEffect(r: Report) {
    r.Returned? || r.Flagged? || (r.Swapped? && r.found == r.seen)
  }

  /** Of the first `n` reports, those that were there when the call arrived took effect by then, and the
      others are of other processes. */
  ghost predicate CallOk(reports: seq<Report>, c: Call, n: nat)
    requires n <= |reports|
  {
    && c.before <= n
    && (forall i: nat :: i < c.before ==> Number(reports[i]) <= c.began)
    && forall i: nat :: c.before <= i < n ==> reports[i].call.p != c.p
  }

  ghost predicate OrderOk(s: State) {
    && (forall p: nat :: p < |s.procs| && !s.procs[p].Outside? ==> CallOk(s.reports, s.procs[p].call, |s.reports|))
    && forall j: nat :: j < |s.reports| ==> CallOk(s.reports, s.reports[j].call, j)
  }

  /** An effect belongs to a finished call, or to a test that has not been reported yet. */
  datatype Owner = ByReport(j: nat) | ByProc(p: nat)

  ghost predicate Owns(s: State, o: Owner, e: nat) {
    match o
    case ByReport(j) => j < |s.reports| && HasEffect(s.reports[j]) && s.reports[j].number == e + 1
    case ByProc(p) => p < |s.procs| && s.procs[p].Tested? && s.procs[p].number == e + 1
  }

  ghost predicate Owned(s: State, e: nat) {
    exists o :: Owns(s, o, e)
  }

  // ---------------------------------------------------------------- counting

  predicate Busy(pc: Pc) {
    pc.Counted? || pc.OldRead? || pc.Tested?
  }

  predicate InTest(pc: Pc) {
    pc.Tested?
  }

  /** Processes that have been counted and have not reported yet. */
  function BusyProcs(procs: seq<Pc>): nat {
    CountIf(Busy, procs, |procs|)
  }

  /** Processes that have tested and have not reported yet. */
  function TestedProcs(procs: seq<Pc>): nat {
    CountIf(InTest, procs, |procs|)
  }

  /** Reports of writes that had an effect. */
  function Effective(reports: seq<Report>): nat {
    CountIf(HasEffect, reports, |reports|)
  }

  lemma {:induction false} CountsAfterMove(procs: seq<Pc>, p: nat, pc: Pc)
    requires p < |procs|
    ensures BusyProcs(procs[p := pc]) == BusyProcs(procs) + One(Busy(pc)) - One(Busy(procs[p]))
    ensures TestedProcs(procs[p := pc]) == TestedProcs(procs) + One(pc.Tested?) - One(procs[p].Tested?)
  {
    CountAfterUpdate(Busy, procs, p, pc, |procs|);
    CountAfterUpdate(InTest, procs, p, pc, |procs|);
  }

  // ---------------------------------------------------------------- the log grows at its end

  lemma {:induction false} ValuePrefix(effects: seq<Effect>, e: Effect, k: nat)
    requires k <= |effects|
    ensures Value(effects + [e], k) == Value(effects, k)
  {
    if k == 0 {
    } else {
      ValuePrefix(effects, e, k - 1);
    }
  }

  lemma {:induction false} FlagKept(effects: seq<Effect>, e: Effect, c: Call, number: nat, flag: bool)
    requires FlagOk(effects, c, number, flag)
    ensures FlagOk(effects + [e], c, number, flag)
  {
    ValuePrefix(effects, e, number);
  }

  lemma {:induction false} ReportKept(effects: seq<Effect>, e: Effect, r: Report)
    requires ReportOk(effects, r)
    ensures ReportOk(effects + [e], r)
  {
    match r
    case Returned(c, number, result) =>
      ValuePrefix(effects, e, if c.cmd.Xchg? then number - 1 else number);
    case Swapped(c, since, seen, number, found) =>
      ValuePrefix(effects, e, since);
      ValuePrefix(effects, e, if found == seen then number - 1 else number);
    case Flagged(c, number, flag, shownAt, shown) =>
      FlagKept(effects, e, c, number, flag);
      ValuePrefix(effects, e, shownAt);
    case Untouched(c) =>
  }

  lemma {:induction false} ProcKept(effects: seq<Effect>, e: Effect, p: nat, pc: Pc)
    requires ProcOk(effects, p, pc) && e.p != p
    ensures ProcOk(effects + [e], p, pc)
  {
    match pc
    case OldRead(c, seen, since) => ValuePrefix(effects, e, since);
    case Tested(c, flag, number) => FlagKept(effects, e, c, number, flag);
    case _ =>
  }

  // ---------------------------------------------------------------- the invariant

  ghost predicate CounterOk(s: State) {
    s.counter == Wrap32(Value(s.effects, |s.effects|))
  }

  /** The counter is the wrapped reference value, and effects and counted writes balance with the reports. */
  ghost predicate TotalsOk(s: State) {
    && CounterOk(s)
    && s.operations == Wrap32(|s.reports| + BusyProcs(s.procs))
    && |s.effects| == Effective(s.reports) + TestedProcs(s.procs)
  }

  ghost predicate ProcsOk(s: State) {
    forall p: nat :: p < |s.procs| ==> ProcOk(s.effects, p, s.procs[p])
  }

  ghost predicate ReportsOk(s: State) {
    forall k: nat :: k < |s.reports| ==> ReportOk(s.effects, s.reports[k])
  }

  ghost predicate AllOwned(s: State) {
    forall e: nat :: e < |s.effects| ==> Owned(s, e)
  }

  ghost predicate Inv(s: State) {
    TotalsOk(s) && ProcsOk(s) && ReportsOk(s) && OrderOk(s) && AllOwned(s)
  }

  lemma {:induction false} WrapAdd(x: int, d: int)
    ensures Wrap32(Wrap32(x) + d) == Wrap32(x + d)
  {
  }

  // ---------------------------------------------------------------- the shape of a step

  /** The one effect a step may add, if any, belongs to the process that takes the step. */
  ghost predicate Grows(s: State, t: State, p: nat) {
    var n := |s.effects|;
    t.effects == s.effects
    || (|t.effects| == n + 1 && t.effects[n].p == p && t.effects == s.effects + [t.effects[n]])
  }

  /** A step of process `p` keeps the call in progress, or finishes it with one report. */
  ghost predicate OneCall(s: State, t: State, p: nat)
    requires p < |s.procs|
  {
    var n := |s.reports|;
    && |t.procs| == |s.procs| && t.procs == s.procs[p := t.procs[p]]
    && ((t.reports == s.reports && t.procs[p].Outside? == s.procs[p].Outside?
         && (s.procs[p].Outside? || t.procs[p].call == s.procs[p].call))
        || (|t.reports| == n + 1 && t.reports == s.reports + [t.reports[n]]
            && t.procs[p].Outside? && !s.procs[p].Outside? && t.reports[n].call == s.procs[p].call))
  }

  /** A new effect is owned at once, and a pending test hands its effect to its report. */
  ghost predicate Hands(s: State, t: State, p: nat)
    requires p < |s.procs| == |t.procs|
  {
    var n := |s.reports|;
    && (|t.effects| > |s.effects| ==>
          (t.procs[p].Tested? && t.procs[p].number == |t.effects|)
          || (|t.reports| > n && HasEffect(t.reports[n]) && t.reports[n].number == |t.effects|))
    && (s.procs[p].Tested? ==>
          |t.reports| > n && t.reports[n].Flagged? && t.reports[n].number == s.procs[p].number)
  }

  /** The balance of a step between reports, effects and where the process stands. */
  ghost predicate Balances(s: State, t: State, p: nat)
    requires p < |s.procs| == |t.procs|
  {
    var n := |s.reports|;
    && |t.reports| - n + One(Busy(t.procs[p])) - One(Busy(s.procs[p])) == One(s.procs[p].Parsed?)
    && t.operations == Wrap32(s.operations + One(s.procs[p].Parsed?))
    && |t.effects| - |s.effects|
       == One(t.procs[p].Tested?) - One(s.procs[p].Tested?) + One(|t.reports| > n && HasEffect(t.reports[n]))
  }

  ghost predicate Shape(s: State, t: State, p: nat)
    requires p < |s.procs|
  {
    OneCall(s, t, p) && Grows(s, t, p) && Hands(s, t, p) && Balances(s, t, p)
  }

  lemma {:induction false} AddReturnShape(s: State, p: nat, c: Call, d: int)
    requires p < |s.procs| && s.procs[p] == Counted(c)
    ensures Shape(s, AddReturn(s, p, c, d), p)
  {
  }

  lemma {:induction false} AddTestShape(s: State, p: nat, c: Call, d: int, negative: bool)
    requires p < |s.procs| && s.procs[p] == Counted(c)
    ensures Shape(s, AddTest(s, p, c, d, negative), p)
  {
  }

  lemma {:induction false} StoreShape(s: State, p: nat, c: Call, v: Int32, result: Int32)
    requires p < |s.procs| && s.procs[p] == Counted(c)
    ensures Shape(s, StoreReturn(s, p, c, v, result), p)
  {
  }

  lemma {:induction false} ExchangeShape(s: State, p: nat, c: Call, seen: Int32, since: nat)
    requires p < |s.procs| && s.procs[p] == OldRead(c, seen, since) && c.cmd.CmpXchg?
    ensures Shape(s, Exchange(s, p, c, seen, since), p)
  {
  }

  lemma {:induction false} ReadShape(s: State, p: nat, c: Call)
    requires p < |s.procs| && s.procs[p] == Counted(c)
    ensures Shape(s, Move(s, p, OldRead(c, s.counter, |s.effects|)), p)
  {
  }

  lemma {:induction false} UntouchedShape(s: State, p: nat, c: Call)
    requires p < |s.procs| && s.procs[p] == Counted(c)
    ensures Shape(s, Finish(s, p, Untouched(c)), p)
  {
  }

  lemma {:induction false} ExecuteShape(s: State, p: nat, c: Call)
    requires p < |s.procs| && s.procs[p] == Counted(c)
    ensures Shape(s, Execute(s, p, c), p)
  {
    match c.cmd
    case Inc => AddReturnShape(s, p, c, 1);
    case Dec => AddReturnShape(s, p, c, -1);
    case Plus(v) => AddReturnShape(s, p, c, v);
    case Minus(v) => AddReturnShape(s, p, c, 0 - v);
    case Set(v) => StoreShape(s, p, c, v, v);
    case Xchg(v) => StoreShape(s, p, c, v, s.counter);
    case DecAndTest => AddTestShape(s, p, c, -1, false);
    case IncAndTest => AddTestShape(s, p, c, 1, false);
    case MinusAndTest(v) => AddTestShape(s, p, c, 0 - v, false);
    case PlusNegative(v) => AddTestShape(s, p, c, v, true);
    case CmpXchg(_) => ReadShape(s, p, c);
    case Other => UntouchedShape(s, p, c);
  }

  lemma {:induction false} StepShape(s: State, p: nat)
    requires p < |s.procs|
    ensures Shape(s, StepProc(s, p), p)
  {
    match s.procs[p]
    case Counted(c) => ExecuteShape(s, p, c);
    case OldRead(c, seen, since) =>
      if c.cmd.CmpXchg? {
        ExchangeShape(s, p, c, seen, since);
      }
    case _ =>
  }

  // ---------------------------------------------------------------- what a step leaves for its own process

  /** After one atomic addition or store the counter is again the wrapped reference value. */
  lemma {:induction false} CounterFollows(s: State, p: nat, d: int, v: Int32)
    requires CounterOk(s)
    ensures CounterOk(AddTo(s, p, d)) && CounterOk(Store(s, p, v))
    ensures Value(Store(s, p, v).effects, |s.effects|) == Value(s.effects, |s.effects|)
  {
    var n := |s.effects|;
    ValuePrefix(s.effects, Add(p, d), n);
    ValuePrefix(s.effects, Put(p, v), n);
    WrapAdd(Value(s.effects, n), d);
  }

  /** What a step of process `p` leaves for that process is as promised. */
  ghost predicate OwnOk(s: State, t: State, p: nat)
    requires p < |t.procs|
  {
    && CounterOk(t)
    && ProcOk(t.effects, p, t.procs[p])
    && (|t.reports| > |s.reports| ==> ReportOk(t.effects, t.reports[|s.reports|]))
  }

  /** Process `p` is about to execute call `c`. */
  ghost predicate Ready(s: State, p: nat, c: Call) {
    CounterOk(s) && p < |s.procs| && c.p == p && c.began <= |s.effects|
  }

  lemma {:induction false} AddReturnOk(s: State, p: nat, c: Call, d: int)
    requires Ready(s, p, c) && !Tests(c.cmd) && !Stores(c.cmd) && !c.cmd.Other? && Delta(c.cmd) == d
    ensures OwnOk(s, AddReturn(s, p, c, d), p)
  {
    CounterFollows(s, p, d, 0);
  }

  lemma {:induction false} AddTestOk(s: State, p: nat, c: Call, d: int)
    requires Ready(s, p, c) && Tests(c.cmd) && Delta(c.cmd) == d
    ensures OwnOk(s, AddTest(s, p, c, d, c.cmd.PlusNegative?), p)
  {
    CounterFollows(s, p, d, 0);
  }

  lemma {:induction false} StoreOk(s: State, p: nat, c: Call)
    requires Ready(s, p, c) && (c.cmd.Set? || c.cmd.Xchg?)
    ensures OwnOk(s, Execute(s, p, c), p)
  {
    CounterFollows(s, p, 0, c.cmd.v);
  }

  lemma {:induction false} ExecuteOk(s: State, p: nat, c: Call)
    requires Ready(s, p, c)
    ensures OwnOk(s, Execute(s, p, c), p)
  {
    match c.cmd
    case Inc => AddReturnOk(s, p, c, 1);
    case Dec => AddReturnOk(s, p, c, -1);
    case Plus(v) => AddReturnOk(s, p, c, v);
    case Minus(v) => AddReturnOk(s, p, c, 0 - v);
    case Set(_) => StoreOk(s, p, c);
    case Xchg(_) => StoreOk(s, p, c);
    case DecAndTest => AddTestOk(s, p, c, -1);
    case IncAndTest => AddTestOk(s, p, c, 1);
    case MinusAndTest(v) => AddTestOk(s, p, c, 0 - v);
    case PlusNegative(v) => AddTestOk(s, p, c, v);
    case _ =>
  }

  lemma {:induction false} ExchangeOk(s: State, p: nat, c: Call, seen: Int32, since: nat)
    requires Ready(s, p, c) && c.cmd.CmpXchg? && ProcOk(s.effects, p, OldRead(c, seen, since))
    ensures OwnOk(s, Exchange(s, p, c, seen, since), p)
  {
    if s.counter == seen {
      CounterFollows(s, p, 0, c.cmd.v);
      ValuePrefix(s.effects, Put(p, c.cmd.v), since);
    }
  }

  lemma {:induction false} StepOwnOk(s: State, p: nat)
    requires CounterOk(s) && p < |s.procs| && ProcOk(s.effects, p, s.procs[p])
    ensures OwnOk(s, StepProc(s, p), p)
  {
    match s.procs[p]
    case Counted(c) => ExecuteOk(s, p, c);
    case OldRead(c, seen, since) => ExchangeOk(s, p, c, seen, since);
    case _ =>
  }

  // ---------------------------------------------------------------- every step keeps the invariant

  /** A balanced step keeps the two conservation laws. */
  lemma {:induction false} TotalsKept(s: State, t: State, p: nat)
    requires TotalsOk(s) && p < |s.procs| && OneCall(s, t, p) && Balances(s, t, p)
    ensures t.operations == Wrap32(|t.reports| + BusyProcs(t.procs))
    ensures |t.effects| == Effective(t.reports) + TestedProcs(t.procs)
  {
    CountsAfterMove(s.procs, p, t.procs[p]);
    WrapAdd(|s.reports| + BusyProcs(s.procs), One(s.procs[p].Parsed?));
    if |t.reports| > |s.reports| {
      CountPrefix(HasEffect, s.reports, t.reports[|s.reports|], |s.reports|);
    }
  }

  lemma {:induction false} ProcsKept(s: State, t: State, p: nat)
    requires ProcsOk(s) && p < |s.procs| && OneCall(s, t, p) && Grows(s, t, p) && OwnOk(s, t, p)
    ensures ProcsOk(t)
  {
    forall q: nat | q < |t.procs|
      ensures ProcOk(t.effects, q, t.procs[q])
    {
      if q != p && t.effects != s.effects {
        ProcKept(s.effects, t.effects[|s.effects|], q, s.procs[q]);
      }
    }
  }

  lemma {:induction false} ReportsKept(s: State, t: State, p: nat)
    requires ReportsOk(s) && p < |s.procs| && OneCall(s, t, p) && Grows(s, t, p) && OwnOk(s, t, p)
    ensures ReportsOk(t)
  {
    forall k: nat | k < |t.reports|
      ensures ReportOk(t.effects, t.reports[k])
    {
      if k < |s.reports| && t.effects != s.effects {
        ReportKept(s.effects, t.effects[|s.effects|], s.reports[k]);
      }
    }
  }

  lemma {:induction false} OrderKept(s: State, t: State, p: nat)
    requires OrderOk(s) && ProcsOk(s) && p < |s.procs| && OneCall(s, t, p)
    ensures OrderOk(t)
  {
    forall q: nat | q < |t.procs| && !t.procs[q].Outside?
      ensures CallOk(t.reports, t.procs[q].call, |t.reports|)
    {
      assert CallOk(s.reports, s.procs[q].call, |s.reports|);
      assert ProcOk(s.effects, q, s.procs[q]) && ProcOk(s.effects, p, s.procs[p]);
    }
    forall j: nat | j < |t.reports|
      ensures CallOk(t.reports, t.reports[j].call, j)
    {
      assert CallOk(s.reports, t.reports[j].call, j);
    }
  }

  lemma {:induction false} OwnersKept(s: State, t: State, p: nat)
    requires AllOwned(s) && p < |s.procs| && OneCall(s, t, p) && Grows(s, t, p) && Hands(s, t, p)
    ensures AllOwned(t)
  {
    var n := |s.reports|;
    forall e: nat | e < |t.effects|
      ensures Owned(t, e)
    {
      if e < |s.effects| {
        assert Owned(s, e);
        var o :| Owns(s, o, e);
        assert Owns(t, if o == ByProc(p) then ByReport(n) else o, e);
      } else {
        assert Owns(t, if t.procs[p].Tested? then ByProc(p) else ByReport(n), e);
      }
    }
  }

  lemma {:induction false} StepKeepsInv(s: State, p: nat)
    requires Inv(s) && p < |s.procs|
    ensures Inv(StepProc(s, p))
  {
    var t := StepProc(s, p);
    assert ProcOk(s.effects, p, s.procs[p]);
    StepShape(s, p);
    StepOwnOk(s, p);
    TotalsKept(s, t, p);
    ProcsKept(s, t, p);
    ReportsKept(s, t, p);
    OrderKept(s, t, p);
    OwnersKept(s, t, p);
  }

  lemma {:induction false} WriteKeepsInv(s: State, p: nat, cmd: Command)
    requires Inv(s) && p < |s.procs| && s.procs[p].Outside?
    ensures Inv(Move(s, p, Parsed(Call(p, cmd, |s.reports|, |s.effects|))))
  {
    var c := Call(p, cmd, |s.reports|, |s.effects|);
    var t := Move(s, p, Parsed(c));
    CountsAfterMove(s.procs, p, Parsed(c));
    assert ProcsOk(t) && ReportsOk(t);
    forall i: nat | i < |s.reports|
      ensures Number(s.reports[i]) <= |s.effects|
    {
      assert ReportOk(s.effects, s.reports[i]);
    }
    assert CallOk(t.reports, c, |t.reports|);
    forall e: nat | e < |t.effects|
      ensures Owned(t, e)
    {
      assert Owned(s, e);
      var o :| Owns(s, o, e);
      assert Owns(t, o, e);
    }
  }

  lemma {:induction false} NextKeepsInv(s: State, ev: Event)
    requires Inv(s)
    ensures Inv(Next(s, ev))
  {
    if ev.p < |s.procs| {
      match ev
      case Step(p) => StepKeepsInv(s, p);
      case Write(p, cmd) =>
        if s.procs[p].Outside? {
          WriteKeepsInv(s, p, cmd);
        }
    }
  }

  lemma {:induction false} ReachInv(n: nat, evs: seq<Event>, k: nat)
    requires k <= |evs|
    ensures Inv(Reach(n, evs, k))
  {
    if k == 0 {
      CountNone(Busy, Reach(n, evs, 0).procs, n);
      CountNone(InTest, Reach(n, evs, 0).procs, n);
    } else {
      ReachInv(n, evs, k - 1);
      NextKeepsInv(Reach(n, evs, k - 1), evs[k - 1]);
    }
  }

  // ---------------------------------------------------------------- the main results

  /** In every reachable state the counter is the unbounded value of the effects, wrapped to 32 bits;
      `operations_count` is the number of writes counted so far; and every report is exact in the sense of
      `ReportOk`: replaying the log from the start gives every value reported. */
  lemma {:induction false} ReportsLinearize(n: nat, evs: seq<Event>, k: nat)
    requires k <= |evs|
    ensures TotalsOk(Reach(n, evs, k))
    ensures forall j: nat :: j < |Reach(n, evs, k).reports| ==>
      ReportOk(Reach(n, evs, k).effects, Reach(n, evs, k).reports[j])
  {
    ReachInv(n, evs, k);
  }

  /** Whoever owns an effect has the call it stands for. */
  lemma {:induction false} OwnerMeans(s: State, o: Owner, e: nat)
    requires Inv(s) && Owns(s, o, e)
    ensures e < |s.effects|
    ensures s.effects[e] == Meaning(match o case ByReport(j) => s.reports[j].call case ByProc(p) => s.procs[p].call)
  {
    match o
    case ByReport(j) => assert ReportOk(s.effects, s.reports[j]);
    case ByProc(p) => assert ProcOk(s.effects, p, s.procs[p]);
  }

  /** A process that has reported call `i` and later made the call `c` reported `i` before `c` arrived. */
  lemma {:induction false} SameProcessEarlier(s: State, c: Call, n: nat, i: nat)
    requires n <= |s.reports| && CallOk(s.reports, c, n) && i < n && s.reports[i].call.p == c.p
    ensures Number(s.reports[i]) <= c.began
  {
    assert i < c.before;
  }

  /** Two reports, or a report and a pending test, never own the same effect. */
  lemma {:induction false} OwnerIsUnique(s: State, o: Owner, o': Owner, e: nat)
    requires Inv(s) && Owns(s, o, e) && Owns(s, o', e)
    ensures o == o'
  {
    OwnerMeans(s, o, e);
    OwnerMeans(s, o', e);
    match (o, o')
    case (ByReport(i), ByReport(j)) => ReportsDiffer(s, i, j);
    case (ByReport(i), ByProc(p)) => TestDiffers(s, i, p);
    case (ByProc(p), ByReport(i)) => TestDiffers(s, i, p);
    case (ByProc(p), ByProc(q)) =>
      assert ProcOk(s.effects, p, s.procs[p]) && ProcOk(s.effects, q, s.procs[q]);
  }

  lemma {:induction false} ReportsDiffer(s: State, i: nat, j: nat)
    requires Inv(s) && i < |s.reports| && j < |s.reports|
    requires HasEffect(s.reports[i]) && HasEffect(s.reports[j]) && s.reports[i].number == s.reports[j].number
    ensures i == j
  {
    var first, last := if i < j then i else j, if i < j then j else i;
    assert ReportOk(s.effects, s.reports[i]) && ReportOk(s.effects, s.reports[j]);
    assert CallOk(s.reports, s.reports[last].call, last);
    assert first < s.reports[last].call.before || first == last;
  }

  lemma {:induction false} TestDiffers(s: State, i: nat, p: nat)
    requires Inv(s) && i < |s.reports| && p < |s.procs| && HasEffect(s.reports[i]) && s.procs[p].Tested?
    ensures s.reports[i].number != s.procs[p].number
  {
    assert ReportOk(s.effects, s.reports[i]) && ProcOk(s.effects, p, s.procs[p]);
    if s.reports[i].call.p == p {
      SameProcessEarlier(s, s.procs[p].call, |s.reports|, i);
    }
  }

  /** No update is lost, invented or shared: in every reachable state each effect belongs to exactly one
      finished call or pending test. (That each of those owns an effect is part of `ReachInv`.) */
  lemma {:induction false} EachEffectHasOneOwner(n: nat, evs: seq<Event>, e: nat) returns (o: Owner)
    requires e < |Reach(n, evs, |evs|).effects|
    ensures Owns(Reach(n, evs, |evs|), o, e)
    ensures forall o' :: Owns(Reach(n, evs, |evs|), o', e) ==> o' == o
  {
    var s := Reach(n, evs, |evs|);
    ReachInv(n, evs, |evs|);
    assert Owned(s, e);
    o :| Owns(s, o, e);
    forall o' | Owns(s, o', e)
      ensures o' == o
    {
      OwnerIsUnique(s, o, o', e);
    }
  }

  /** Event `e` of the run is the write that became call `c`. */
  ghost predicate IssuedAt(n: nat, evs: seq<Event>, e: nat, c: Call) {
    && e < |evs| && evs[e] == Write(c.p, c.cmd) && c.p < n
    && var s := Reach(n, evs, e);
    s.procs[c.p].Outside? && c.before == |s.reports| && c.began == |s.effects|
  }

  /** Process `p` is in the call `c` in `t`: it was so in `s`, or `ev` is the write that became `c`. */
  ghost predicate SameOrWritten(s: State, ev: Event, p: nat, c: Call)
    requires p < |s.procs|
  {
    || (!s.procs[p].Outside? && s.procs[p].call == c)
    || (s.procs[p].Outside? && ev == Write(p, c.cmd) && c == Call(p, c.cmd, |s.reports|, |s.effects|))
  }

  lemma {:induction false} SameCall(s: State, t: State, q: nat, p: nat)
    requires q < |s.procs| && p < |s.procs| && OneCall(s, t, q) && !t.procs[p].Outside?
    ensures !s.procs[p].Outside? && s.procs[p].call == t.procs[p].call
  {
  }

  lemma {:induction false} CallStep(s: State, ev: Event, p: nat)
    requires p < |s.procs| && p < |Next(s, ev).procs| && !Next(s, ev).procs[p].Outside?
    ensures SameOrWritten(s, ev, p, Next(s, ev).procs[p].call)
  {
    if ev.p < |s.procs| && ev.Step? {
      StepShape(s, ev.p);
      SameCall(s, StepProc(s, ev.p), ev.p, p);
    }
  }

  /** The call a process is in is a write of the run. */
  lemma {:induction false} CallWasWritten(n: nat, evs: seq<Event>, p: nat, k: nat) returns (e: nat)
    requires p < n && k <= |evs| && !Reach(n, evs, k).procs[p].Outside?
    ensures e < k && IssuedAt(n, evs, e, Reach(n, evs, k).procs[p].call)
  {
    e := k - 1;
    CallStep(Reach(n, evs, k - 1), evs[k - 1], p);
    if !Reach(n, evs, k - 1).procs[p].Outside? {
      e := CallWasWritten(n, evs, p, k - 1);
    }
  }

  /** The reports in `t` are those in `s`, or one more by the process that takes the step `ev`. */
  ghost predicate SameOrReported(s: State, ev: Event, t: State) {
    var n := |s.reports|;
    t.reports == s.reports
    || (ev.Step? && ev.p < |s.procs| && !s.procs[ev.p].Outside?
        && |t.reports| == n + 1 && t.reports == s.reports + [t.reports[n]] && t.reports[n].call == s.procs[ev.p].call)
  }

  lemma {:induction false} ReportStep(s: State, ev: Event)
    ensures SameOrReported(s, ev, Next(s, ev))
  {
    if ev.p < |s.procs| && ev.Step? {
      StepShape(s, ev.p);
    }
  }

  /** Event `f` is a step of a process that is in the call `c`, with `j` reports made before. */
  ghost predicate FinishesAt(n: nat, evs: seq<Event>, f: nat, j: nat, c: Call) {
    && f < |evs| && evs[f].Step? && evs[f].p < n
    && var s := Reach(n, evs, f);
    |s.reports| == j && !s.procs[evs[f].p].Outside? && s.procs[evs[f].p].call == c
  }

  lemma {:induction false} FindReport(n: nat, evs: seq<Event>, k: nat, j: nat) returns (f: nat)
    requires k <= |evs| && j < |Reach(n, evs, k).reports|
    ensures f < k && FinishesAt(n, evs, f, j, Reach(n, evs, k).reports[j].call)
  {
    f := k - 1;
    var s := Reach(n, evs, k - 1);
    ReportStep(s, evs[k - 1]);
    if j < |s.reports| {
      f := FindReport(n, evs, k - 1, j);
    }
  }

  /** Every reported call is a write of the run, with its own command: written at event `e` and finished by
      its own process at event `f`. */
  lemma {:induction false} CallsAreWrites(n: nat, evs: seq<Event>, j: nat) returns (e: nat, f: nat)
    requires j < |Reach(n, evs, |evs|).reports|
    ensures e < f && FinishesAt(n, evs, f, j, Reach(n, evs, |evs|).reports[j].call)
    ensures IssuedAt(n, evs, e, Reach(n, evs, |evs|).reports[j].call)
  {
    f := FindReport(n, evs, |evs|, j);
    e := CallWasWritten(n, evs, evs[f].p, f);
  }

  /** The order of the log is an order of the run: a call that had been reported when another was written
      comes before it in the log. */
  lemma {:induction false} LogRespectsTime(n: nat, evs: seq<Event>, i: nat, j: nat, e: nat)
    requires j < |Reach(n, evs, |evs|).reports|
    requires IssuedAt(n, evs, e, Reach(n, evs, |evs|).reports[j].call) && i < |Reach(n, evs, e).reports|
    ensures var rs := Reach(n, evs, |evs|).reports;
      && i < j && Number(rs[i]) <= rs[j].call.began
      && (HasEffect(rs[j]) ==> Number(rs[i]) < Number(rs[j]))
      && (rs[j].Swapped? ==> Number(rs[i]) <= rs[j].since <= Number(rs[j]))
  {
    var s := Reach(n, evs, |evs|);
    ReachInv(n, evs, |evs|);
    assert CallOk(s.reports, s.reports[j].call, j) && ReportOk(s.effects, s.reports[j]);
  }

  // ---------------------------------------------------------------- runs that only add

  function ReportDelta(r: Report): int {
    Delta(r.call.cmd)
  }

  function PendingDelta(pc: Pc): int {
    if pc.Tested? then Delta(pc.call.cmd) else 0
  }

  predicate OnlyAdds(evs: seq<Event>) {
    forall k :: 0 <= k < |evs| && evs[k].Write? ==> !Stores(evs[k].cmd)
  }

  /** Nothing in progress stores, and the value is the sum of what finished calls and pending tests added. */
  ghost predicate SumOk(s: State) {
    && (forall p: nat :: p < |s.procs| && !s.procs[p].Outside? ==> !Stores(s.procs[p].call.cmd))
    && Value(s.effects, |s.effects|)
       == Sum(ReportDelta, s.reports, |s.reports|) + Sum(PendingDelta, s.procs, |s.procs|)
  }

  /** A new effect is what the call in progress adds; without one the process was, or will be, pending. */
  lemma {:induction false} NewEffectAdds(s: State, t: State, p: nat)
    requires p < |s.procs| && Shape(s, t, p) && OwnOk(s, t, p)
    ensures |t.effects| > |s.effects| ==> !s.procs[p].Outside? && t.effects[|s.effects|] == Meaning(s.procs[p].call)
    ensures |t.reports| > |s.reports| && !HasEffect(t.reports[|s.reports|]) && !Stores(s.procs[p].call.cmd) ==>
      Delta(s.procs[p].call.cmd) == 0
  {
  }

  lemma {:induction false} StepKeepsSum(s: State, t: State, p: nat)
    requires SumOk(s) && p < |s.procs| && Shape(s, t, p) && OwnOk(s, t, p)
    ensures SumOk(t)
  {
    var n, m := |s.reports|, |s.effects|;
    NewEffectAdds(s, t, p);
    SumAfterUpdate(PendingDelta, s.procs, p, t.procs[p], |s.procs|);
    if |t.reports| > n {
      SumPrefix(ReportDelta, s.reports, t.reports[n], n);
    }
    if |t.effects| > m {
      ValuePrefix(s.effects, t.effects[m], m);
    }
  }

  lemma {:induction false} NextKeepsSum(s: State, ev: Event)
    requires Inv(s) && SumOk(s) && (ev.Write? ==> !Stores(ev.cmd))
    ensures SumOk(Next(s, ev))
  {
    var t, p := Next(s, ev), ev.p;
    if p < |s.procs| && ev.Step? {
      assert ProcOk(s.effects, p, s.procs[p]);
      StepShape(s, p);
      StepOwnOk(s, p);
      StepKeepsSum(s, t, p);
    } else if t != s {
      SumAfterUpdate(PendingDelta, s.procs, p, t.procs[p], |s.procs|);
    }
  }

  lemma {:induction false} ReachSum(n: nat, evs: seq<Event>, k: nat)
    requires k <= |evs| && OnlyAdds(evs)
    ensures SumOk(Reach(n, evs, k))
  {
    if k == 0 {
      SumZero(PendingDelta, Reach(n, evs, 0).procs, n);
    } else {
      ReachSum(n, evs, k - 1);
      ReachInv(n, evs, k - 1);
      NextKeepsSum(Reach(n, evs, k - 1), evs[k - 1]);
    }
  }

  predicate IsInc(r: Report) {
    r.call.cmd.Inc? || r.call.cmd.IncAndTest?
  }

  predicate IsDec(r: Report) {
    r.call.cmd.Dec? || r.call.cmd.DecAndTest?
  }

  function Added(r: Report): int {
    if r.call.cmd.Plus? || r.call.cmd.PlusNegative? then r.call.cmd.v else 0
  }

  function Subtracted(r: Report): int {
    if r.call.cmd.Minus? || r.call.cmd.MinusAndTest? then r.call.cmd.v else 0
  }

  /** Increments less decrements, and amounts added less amounts subtracted. */
  function Tally(reports: seq<Report>): int {
    var k := |reports|;
    CountIf(IsInc, reports, k) - CountIf(IsDec, reports, k) + Sum(Added, reports, k) - Sum(Subtracted, reports, k)
  }

  lemma {:induction false} SumIsTally(reports: seq<Report>, k: nat)
    requires k <= |reports|
    ensures Sum(ReportDelta, reports, k)
         == CountIf(IsInc, reports, k) - CountIf(IsDec, reports, k)
            + Sum(Added, reports, k) - Sum(Subtracted, reports, k)
  {
    if k == 0 {
    } else {
      SumIsTally(reports, k - 1);
    }
  }

  /** In a run of additions only, however they interleave, once no test is pending the counter is the sum of
      what all finished commands add, wrapped to 32 bits. */
  lemma {:induction false} CounterIsSum(n: nat, evs: seq<Event>)
    requires OnlyAdds(evs) && forall p: nat :: p < n ==> !Reach(n, evs, |evs|).procs[p].Tested?
    ensures Reach(n, evs, |evs|).counter == Wrap32(Tally(Reach(n, evs, |evs|).reports))
  {
    ReachInv(n, evs, |evs|);
    ReachSum(n, evs, |evs|);
    QuietSum(Reach(n, evs, |evs|));
  }

  lemma {:induction false} QuietSum(s: State)
    requires CounterOk(s) && SumOk(s) && forall p: nat :: p < |s.procs| ==> !s.procs[p].Tested?
    ensures s.counter == Wrap32(Tally(s.reports))
  {
    SumIsTally(s.reports, |s.reports|);
    SumZero(PendingDelta, s.procs, |s.procs|);
  }

  // ---------------------------------------------------------------- single commands

  /** A set, an exchange and a successful compare-and-exchange leave their own value in the counter. */
  lemma {:induction false} StoreIsSeen(n: nat, evs: seq<Event>, j: nat)
    requires j < |Reach(n, evs, |evs|).reports|
    requires var r := Reach(n, evs, |evs|).reports[j];
      HasEffect(r) && (r.call.cmd.Set? || r.call.cmd.Xchg? || r.call.cmd.CmpXchg?)
    ensures var s := Reach(n, evs, |evs|);
      var r := s.reports[j];
      0 < r.number <= |s.effects| && Value(s.effects, r.number) == r.call.cmd.v
  {
    ReportsLinearize(n, evs, |evs|);
    var s := Reach(n, evs, |evs|);
    assert ReportOk(s.effects, s.reports[j]);
  }

  /** A write, then the two steps that count it and execute it. */
  function Executed(s: State, p: nat, cmd: Command): State {
    Next(Next(Next(s, Write(p, cmd)), Step(p)), Step(p))
  }

  lemma {:induction false} ExecutedIs(s: State, p: nat, cmd: Command)
    requires p < |s.procs| && s.procs[p].Outside?
    ensures var c := Call(p, cmd, |s.reports|, |s.effects|);
      var t := Move(s.(operations := Wrap32(s.operations + 1)), p, Counted(c));
      Executed(s, p, cmd) == Execute(t, p, c)
  {
    var c := Call(p, cmd, |s.reports|, |s.effects|);
    assert Next(Next(s, Write(p, cmd)), Step(p)) == Move(s.(operations := Wrap32(s.operations + 1)), p, Counted(c));
  }

  /** What one undisturbed command does to the counter, from every reachable state, and that it is counted. */
  lemma {:induction false} CommandRuns(n: nat, evs: seq<Event>, p: nat, cmd: Command)
    requires p < n && Reach(n, evs, |evs|).procs[p].Outside?
    ensures var s := Reach(n, evs, |evs|);
      Executed(s, p, cmd).counter == match cmd
                                     case Inc => Wrap32(s.counter + 1)
                                     case Dec => Wrap32(s.counter - 1)
                                     case Plus(v) => Wrap32(s.counter + v)
                                     case Minus(v) => Wrap32(s.counter - v)
                                     case Set(v) => v
                                     case Xchg(v) => v
                                     case CmpXchg(_) => s.counter
                                     case IncAndTest => Wrap32(s.counter + 1)
                                     case DecAndTest => Wrap32(s.counter - 1)
                                     case PlusNegative(v) => Wrap32(s.counter + v)
                                     case MinusAndTest(v) => Wrap32(s.counter - v)
                                     case Other => s.counter
    ensures Executed(Reach(n, evs, |evs|), p, cmd).operations == Wrap32(Reach(n, evs, |evs|).operations + 1)
    ensures cmd.CmpXchg? ==> Next(Executed(Reach(n, evs, |evs|), p, cmd), Step(p)).counter == cmd.v
  {
    ExecutedIs(Reach(n, evs, |evs|), p, cmd);
  }

  /** What it reports: the new value, the old value of an exchange, or the test of the new value. */
  lemma {:induction false} CommandReports(n: nat, evs: seq<Event>, p: nat, cmd: Command)
    requires p < n && Reach(n, evs, |evs|).procs[p].Outside?
    ensures var s := Reach(n, evs, |evs|);
      var t, k := Executed(s, p, cmd), |s.reports|;
      && (cmd.Inc? || cmd.Dec? || cmd.Plus? || cmd.Minus? || cmd.Set? ==>
            t.procs[p].Outside? && |t.reports| == k + 1 && t.reports[k].Returned? && t.reports[k].result == t.counter)
      && (cmd.Xchg? ==>
            t.procs[p].Outside? && |t.reports| == k + 1 && t.reports[k].Returned? && t.reports[k].result == s.counter)
      && (cmd.DecAndTest? || cmd.IncAndTest? || cmd.MinusAndTest? ==>
            t.procs[p].Tested? && t.procs[p].flag == (t.counter == 0))
      && (cmd.PlusNegative? ==> t.procs[p].Tested? && t.procs[p].flag == (t.counter < 0))
      && (cmd.Other? ==> t.procs[p].Outside? && |t.reports| == k + 1 && t.reports[k].Untouched?)
  {
    ExecutedIs(Reach(n, evs, |evs|), p, cmd);
  }

  // ---------------------------------------------------------------- the failed exchange

  lemma {:induction false} ChangedBetween(effects: seq<Effect>, a: nat, b: nat) returns (i: nat)
    requires a <= b <= |effects| && Wrap32(Value(effects, a)) != Wrap32(Value(effects, b))
    ensures a <= i < b && Wrap32(Value(effects, i)) != Wrap32(Value(effects, i + 1))
  {
    i := b - 1;
    if Wrap32(Value(effects, b - 1)) == Wrap32(Value(effects, b)) {
      i := ChangedBetween(effects, a, b - 1);
    }
  }

  /** A compare-and-exchange reports failure only if another process changed the counter after it had been
      read; the effect that did so is in the log, between the two points. */
  lemma {:induction false} FailureMeansInterference(n: nat, evs: seq<Event>, j: nat) returns (i: nat)
    requires j < |Reach(n, evs, |evs|).reports|
    requires var r := Reach(n, evs, |evs|).reports[j];
      r.Swapped? && r.found != r.seen
    ensures var s := Reach(n, evs, |evs|);
      var r := s.reports[j];
      && r.since <= i < r.number <= |s.effects| && s.effects[i].p != r.call.p
      && Wrap32(Value(s.effects, i)) != Wrap32(Value(s.effects, i + 1))
  {
    ReportsLinearize(n, evs, |evs|);
    var s := Reach(n, evs, |evs|);
    var r := s.reports[j];
    assert ReportOk(s.effects, r);
    i := ChangedBetween(s.effects, r.since, r.number);
  }
}

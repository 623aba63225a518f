/** A shared value and an operation counter under one spinlock, used by any number of readers and writers.

    Each statement inside a critical section is one step; events of all processes interleave. */
module SpinlockDemo {

  datatype Pc =
    | Outside
    | WantRead
    | ReadLocked
    | GotData(data: int)                 // local_data is set
    | ReadCounted(data: int)             // operation_count has been incremented
    | GotCount(data: int, number: int)   // local_count is set
    | WantWrite(v: int)
    | WriteLocked(v: int)
    | DataSet(v: int)
    | WriteCounted(v: int)

  /** A finished critical section, with the operation number it took: a read of `value` or a write of it. */
  datatype Done = Done(isWrite: bool, value: int, number: int)

  datatype State = State(owner: int, data: int, count: int, procs: seq<Pc>, log: seq<Done>)

  datatype Event = Read(p: nat, pos: nat) | Write(p: nat, v: int) | Step(p: nat)

  predicate InSection(pc: Pc) {
    !pc.Outside? && !pc.WantRead? && !pc.WantWrite?
  }

  function Move(s: State, p: nat, pc: Pc): State
    requires p < |s.procs|
  {
    s.(procs := s.procs[p := pc])
  }

  function Unlock(s: State, p: nat, d: Done): State
    requires p < |s.procs|
  {
    Move(s.(owner := -1, log := s.log + [d]), p, Outside)
  }

  function StepProc(s: State, p: nat): State
    requires p < |s.procs|
  {
    match s.procs[p]
    case Outside => s
    case WantRead => if s.owner == -1 then Move(s.(owner := p), p, ReadLocked) else s
    case ReadLocked => Move(s, p, GotData(s.data))
    case GotData(d) => Move(s.(count := s.count + 1), p, ReadCounted(d))
    case ReadCounted(d) => Move(s, p, GotCount(d, s.count))
    case GotCount(d, k) => Unlock(s, p, Done(false, d, k))
    case WantWrite(v) => if s.owner == -1 then Move(s.(owner := p), p, WriteLocked(v)) else s
    case WriteLocked(v) => Move(s.(data := v), p, DataSet(v))
    case DataSet(v) => Move(s.(count := s.count + 1), p, WriteCounted(v))
    case WriteCounted(v) => Unlock(s, p, Done(true, v, s.count))
  }

  function Next(s: State, ev: Event): State {
    if ev.p >= |s.procs| then s
    else
      match ev
      case Step(p) => StepProc(s, p)
      case Read(p, pos) => if s.procs[p].Outside? && pos == 0 then Move(s, p, WantRead) else s
      case Write(p, v) => if s.procs[p].Outside? then Move(s, p, WantWrite(v)) else s
  }

  function Reach(n: nat, evs: seq<Event>, k: nat): (s: State)
    requires k <= |evs|
    ensures |s.procs| == n
  {
    if k == 0 then State(-1, 0, 0, seq(n, _ => Outside), []) else Next(Reach(n, evs, k - 1), evs[k - 1])
  }

  /** The value of a register after the first `k` operations: the last write among them, or 0. */
  function Register(log: seq<Done>, k: nat): int
    requires k <= |log|
  {
    if k == 0 then 0 else if log[k - 1].isWrite then log[k - 1].value else Register(log, k - 1)
  }

  ghost predicate ProcOk(s: State, p: nat)
    requires p < |s.procs|
  {
    var pc, n := s.procs[p], |s.log|;
    && (InSection(pc) <==> s.owner == p)
    && (InSection(pc) && !pc.DataSet? && !pc.WriteCounted? ==> s.data == Register(s.log, n))
    && (pc.ReadLocked? || pc.GotData? || pc.WriteLocked? || pc.DataSet? ==> s.count == n)
    && (pc.ReadCounted? || pc.GotCount? || pc.WriteCounted? ==> s.count == n + 1)
    && (pc.GotData? || pc.ReadCounted? || pc.GotCount? ==> pc.data == s.data)
    && (pc.GotCount? ==> pc.number == s.count)
    && (pc.DataSet? || pc.WriteCounted? ==> s.data == pc.v)
  }

  /** Operation `k` took number k + 1, and if it is a read, it read the register after the earlier ones. */
  ghost predicate DoneOk(log: seq<Done>, k: nat)
    requires k < |log|
  {
    log[k].number == k + 1 && (!log[k].isWrite ==> log[k].value == Register(log, k))
  }

  ghost predicate Inv(s: State) {
    && (forall p: nat :: p < |s.procs| ==> ProcOk(s, p))
    && -1 <= s.owner < |s.procs|
    && (s.owner == -1 ==> s.count == |s.log| && s.data == Register(s.log, |s.log|))
    && forall k: nat :: k < |s.log| ==> DoneOk(s.log, k)
  }

  lemma {:induction false} RegisterPrefix(log: seq<Done>, d: Done, k: nat)
    requires k <= |log|
    ensures Register(log + [d], k) == Register(log, k)
  {
    if k == 0 {
    } else {
      RegisterPrefix(log, d, k - 1);
    }
  }

  lemma {:induction false} LogAdded(log: seq<Done>, d: Done)
    requires forall k: nat :: k < |log| ==> DoneOk(log, k)
    requires d.number == |log| + 1 && (!d.isWrite ==> d.value == Register(log, |log|))
    ensures forall k: nat :: k < |log + [d]| ==> DoneOk(log + [d], k)
    ensures Register(log + [d], |log + [d]|) == d.value
  {
    var all := log + [d];
    RegisterPrefix(log, d, |log|);
    forall k: nat | k < |all|
      ensures DoneOk(all, k)
    {
      if k < |log| {
        assert DoneOk(log, k);
        RegisterPrefix(log, d, k);
      }
    }
  }

  lemma {:induction false} NextKeepsInv(s: State, ev: Event)
    requires Inv(s)
    ensures Inv(Next(s, ev))
  {
    var t := Next(s, ev);
    if t != s {
      var p := ev.p;
      assert ProcOk(s, p);
      if ev.Step? && s.procs[p].GotCount? {
        LogAdded(s.log, Done(false, s.procs[p].data, s.procs[p].number));
      } else if ev.Step? && s.procs[p].WriteCounted? {
        LogAdded(s.log, Done(true, s.procs[p].v, s.count));
      }
      forall q: nat | q < |t.procs|
        ensures ProcOk(t, q)
      {
        assert ProcOk(s, q);
      }
    }
  }

  /** In every run the operation numbers are 1, 2, 3, ... in the order in which the sections finish, without
      a gap or a repeat, and each read returned the last write with a smaller number (or 0): number order is
      a linearization of readers and writers. */
  lemma {:induction false} NumbersLinearize(n: nat, evs: seq<Event>, m: nat)
    requires m <= |evs|
    ensures Inv(Reach(n, evs, m))
    ensures forall k: nat :: k < |Reach(n, evs, m).log| ==> DoneOk(Reach(n, evs, m).log, k)
  {
    if m == 0 {
    } else {
      NumbersLinearize(n, evs, m - 1);
      NextKeepsInv(Reach(n, evs, m - 1), evs[m - 1]);
    }
  }

  // ---------------------------------------------------------------- logged operations are calls of the run

  ghost predicate InCall(n: nat, evs: seq<Event>, p: nat, m: nat) {
    p < n && m <= |evs| && !Reach(n, evs, m).procs[p].Outside?
  }

  predicate Reads(pc: Pc) {
    pc.WantRead? || pc.ReadLocked? || pc.GotData? || pc.ReadCounted? || pc.GotCount?
  }

  predicate Writes(pc: Pc) {
    pc.WantWrite? || pc.WriteLocked? || pc.DataSet? || pc.WriteCounted?
  }

  /** Event `e` starts the call that process `p` is in, up to `k`. */
  ghost predicate Began(n: nat, evs: seq<Event>, p: nat, e: nat, k: nat) {
    && p < n && e < k <= |evs| && evs[e].p == p && Reach(n, evs, e).procs[p].Outside?
    && forall m: nat :: e < m <= k ==> InCall(n, evs, p, m)
  }

  lemma {:induction false} BeganLater(n: nat, evs: seq<Event>, p: nat, e: nat, k: nat)
    requires Began(n, evs, p, e, k) && InCall(n, evs, p, k + 1)
    ensures Began(n, evs, p, e, k + 1)
  {
  }

  lemma {:induction false} CallStep(s: State, ev: Event, p: nat)
    requires p < |s.procs| && p < |Next(s, ev).procs| && !Next(s, ev).procs[p].Outside?
    ensures var pc := Next(s, ev).procs[p];
      || (!s.procs[p].Outside? && Reads(s.procs[p]) == Reads(pc) && (Writes(pc) ==> s.procs[p].v == pc.v))
      || (s.procs[p].Outside? && ev.p == p && (ev == Read(p, 0) || (ev.Write? && Writes(pc) && ev.v == pc.v))
          && Reads(pc) == ev.Read?)
  {
  }

  /** A process in a call was asked for it: a read at position 0, or a write of the value it carries. */
  lemma {:induction false} CallWasAsked(n: nat, evs: seq<Event>, p: nat, k: nat) returns (e: nat)
    requires p < n && k <= |evs| && !Reach(n, evs, k).procs[p].Outside?
    ensures Began(n, evs, p, e, k)
    ensures var pc := Reach(n, evs, k).procs[p];
      && (Reads(pc) ==> evs[e] == Read(p, 0))
      && (!Reads(pc) ==> Writes(pc) && evs[e] == Write(p, pc.v))
  {
    assert InCall(n, evs, p, k);
    e := k - 1;
    CallStep(Reach(n, evs, k - 1), evs[k - 1], p);
    if !Reach(n, evs, k - 1).procs[p].Outside? {
      e := CallWasAsked(n, evs, p, k - 1);
      BeganLater(n, evs, p, e, k - 1);
    }
  }

  /** Event `f` is the unlock that logs operation `i`. */
  ghost predicate LogsAt(n: nat, evs: seq<Event>, f: nat, i: nat) {
    && f < |evs| && evs[f].Step? && evs[f].p < n
    && var s := Reach(n, evs, f);
    && |s.log| == i && (s.procs[evs[f].p].GotCount? || s.procs[evs[f].p].WriteCounted?)
    && Reach(n, evs, f + 1) == StepProc(s, evs[f].p)
  }

  lemma {:induction false} FindLog(n: nat, evs: seq<Event>, k: nat, i: nat) returns (f: nat)
    requires k <= |evs| && i < |Reach(n, evs, k).log|
    ensures f < k && LogsAt(n, evs, f, i)
  {
    f := k - 1;
    if i < |Reach(n, evs, k - 1).log| {
      f := FindLog(n, evs, k - 1, i);
    }
  }

  lemma {:induction false} LogGrows(n: nat, evs: seq<Event>, m: nat, k: nat)
    requires m <= k <= |evs|
    ensures Reach(n, evs, m).log <= Reach(n, evs, k).log
    decreases k
  {
    if m == k {
    } else {
      LogGrows(n, evs, m, k - 1);
    }
  }

  /** Operation `i` of the log is the call that began at event `e` and left its section at event `f`. */
  ghost predicate OperationOf(n: nat, evs: seq<Event>, i: nat, e: nat, f: nat) {
    && LogsAt(n, evs, f, i) && Began(n, evs, evs[f].p, e, f)
    && var log := Reach(n, evs, |evs|).log;
    && i < |log|
    && evs[e] == if log[i].isWrite then Write(evs[f].p, log[i].value) else Read(evs[f].p, 0)
  }

  /** Every logged operation is a call of the run: a write logs the value it was asked to write. */
  lemma {:induction false} OperationsAreCalls(n: nat, evs: seq<Event>, i: nat) returns (e: nat, f: nat)
    requires i < |Reach(n, evs, |evs|).log|
    ensures OperationOf(n, evs, i, e, f)
  {
    f := FindLog(n, evs, |evs|, i);
    e := CallWasAsked(n, evs, evs[f].p, f);
    LogGrows(n, evs, f + 1, |evs|);
  }

  /** One call logs once: different operations come from different calls. */
  lemma {:induction false} OneOperationPerCall(n: nat, evs: seq<Event>, i: nat, j: nat, e: nat, f: nat, g: nat, h: nat)
    requires i < j && OperationOf(n, evs, i, e, f) && OperationOf(n, evs, j, g, h)
    ensures e != g
  {
    if h <= f {
      LogGrows(n, evs, h, f);
    }
    assert evs[f].p == evs[h].p ==> !InCall(n, evs, evs[f].p, f + 1);
  }

  /** Numbers respect time: a call that begins after an operation has been logged gets a larger number. */
  lemma {:induction false} NumbersRespectTime(n: nat, evs: seq<Event>, i: nat, j: nat, e: nat, f: nat, g: nat, h: nat)
    requires OperationOf(n, evs, i, e, f) && OperationOf(n, evs, j, g, h) && f < g
    ensures var log := Reach(n, evs, |evs|).log;
      i < j && log[i].number < log[j].number
  {
    LogGrows(n, evs, f + 1, h);
    NumbersLinearize(n, evs, |evs|);
    assert DoneOk(Reach(n, evs, |evs|).log, i) && DoneOk(Reach(n, evs, |evs|).log, j);
  }

  /** A call of process `p` followed by `k` steps of its own. */
  function Alone(s: State, call: Event, p: nat, k: nat): State {
    if k == 0 then Next(s, call) else Next(Alone(s, call, p, k - 1), Step(p))
  }

  lemma {:induction false} SoloWrite(s: State, p: nat, v: int)
    requires p < |s.procs| && s.procs[p].Outside? && s.owner == -1
    ensures Alone(s, Write(p, v), p, 4)
         == s.(data := v, count := s.count + 1, log := s.log + [Done(true, v, s.count + 1)])
  {
    var w := Write(p, v);
    assert Alone(s, w, p, 1) == s.(owner := p, procs := s.procs[p := WriteLocked(v)]);
    assert Alone(s, w, p, 2) == s.(owner := p, data := v, procs := s.procs[p := DataSet(v)]);
    assert s.procs[p := Outside] == s.procs;
  }

  lemma {:induction false} SoloRead(s: State, p: nat)
    requires p < |s.procs| && s.procs[p].Outside? && s.owner == -1
    ensures Alone(s, Read(p, 0), p, 5) == s.(count := s.count + 1, log := s.log + [Done(false, s.data, s.count + 1)])
    ensures forall pos: nat :: pos > 0 ==> Next(s, Read(p, pos)) == s
  {
    var w := Read(p, 0);
    assert Alone(s, w, p, 1) == s.(owner := p, procs := s.procs[p := ReadLocked]);
    assert Alone(s, w, p, 3) == s.(owner := p, count := s.count + 1, procs := s.procs[p := ReadCounted(s.data)]);
    assert s.procs[p := Outside] == s.procs;
  }

  /** From every reachable state with the lock free, a write and then a read give back the value, and take the
      next two operation numbers. */
  lemma {:induction false} WriteThenRead(n: nat, evs: seq<Event>, p: nat, v: int)
    requires p < n && Reach(n, evs, |evs|).procs[p].Outside? && Reach(n, evs, |evs|).owner == -1
    ensures var s := Reach(n, evs, |evs|);
      Alone(Alone(s, Write(p, v), p, 4), Read(p, 0), p, 5).log
      == s.log + [Done(true, v, |s.log| + 1)] + [Done(false, v, |s.log| + 2)]
  {
    var s := Reach(n, evs, |evs|);
    NumbersLinearize(n, evs, |evs|);
    SoloWrite(s, p, v);
    SoloRead(Alone(s, Write(p, v), p, 4), p);
  }
}

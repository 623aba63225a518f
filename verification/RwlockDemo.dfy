/** Readers and writers of a pair (data, time of last update) under a reader-writer lock.

    Inside its section a writer stores the two values in two steps and a reader loads them in two steps;
    events of any number of processes interleave. The lock admits a reader when no writer is inside, and a
    writer when nobody is inside. Runs start after the module's init function. */
module RwlockDemo {

  datatype Pair = Pair(data: int, time: nat)

  datatype Pc =
    | Outside
    | WantRead
    | ReadLocked(before: nat, began: nat)
    | HaveData(before: nat, began: nat, data: int)
    | HaveBoth(before: nat, began: nat, data: int, time: nat)
    | WantWrite(v: int)
    | WriteLocked(v: int)
    | DataSet(v: int)
    | BothSet

  /** A finished reader section: how many sections had finished when it began, how many pairs had been
      committed when it began, and the pair it read. */
  datatype Section = Section(before: nat, began: nat, got: Pair)

  /** `commits` holds the initial pair and then the pair of every writer, in order. */
  datatype State = State(readers: set<nat>, writer: int, data: int, time: nat,
                         procs: seq<Pc>, commits: seq<Pair>, sections: seq<Section>)

  /** `Step` carries the value of `jiffies` at that moment. */
  datatype Event = Read(p: nat, pos: nat) | Write(p: nat, v: int) | Step(p: nat, jiffies: nat)

  predicate Reading(pc: Pc) {
    pc.ReadLocked? || pc.HaveData? || pc.HaveBoth?
  }

  predicate Writing(pc: Pc) {
    pc.WriteLocked? || pc.DataSet? || pc.BothSet?
  }

  function Move(s: State, p: nat, pc: Pc): State
    requires p < |s.procs|
  {
    s.(procs := s.procs[p := pc])
  }

  function StepProc(s: State, p: nat, jiffies: nat): State
    requires p < |s.procs|
  {
    match s.procs[p]
    case Outside => s
    case WantRead =>
      if s.writer == -1 then
        Move(s.(readers := s.readers + {p}), p, ReadLocked(|s.sections|, |s.commits|))
      else s
    case ReadLocked(b, k) => Move(s, p, HaveData(b, k, s.data))
    case HaveData(b, k, d) => Move(s, p, HaveBoth(b, k, d, s.time))
    case HaveBoth(b, k, d, t) =>
      Move(s.(readers := s.readers - {p}, sections := s.sections + [Section(b, k, Pair(d, t))]), p, Outside)
    case WantWrite(v) =>
      if s.writer == -1 && s.readers == {} then Move(s.(writer := p), p, WriteLocked(v)) else s
    case WriteLocked(v) => Move(s.(data := v), p, DataSet(v))
    case DataSet(v) => Move(s.(time := jiffies, commits := s.commits + [Pair(v, jiffies)]), p, BothSet)
    case BothSet => Move(s.(writer := -1), p, Outside)
  }

  function Next(s: State, ev: Event): State {
    if ev.p >= |s.procs| then s
    else
      match ev
      case Step(p, jiffies) => StepProc(s, p, jiffies)
      case Read(p, pos) => if s.procs[p].Outside? && pos == 0 then Move(s, p, WantRead) else s
      case Write(p, v) => if s.procs[p].Outside? then Move(s, p, WantWrite(v)) else s
  }

  function Init(n: nat, now: nat): State {
    State({}, -1, 0, now, seq(n, _ => Outside), [Pair(0, now)], [])
  }

  function Reach(n: nat, now: nat, evs: seq<Event>, k: nat): (s: State)
    requires k <= |evs|
    ensures |s.procs| == n
  {
    if k == 0 then Init(n, now) else Next(Reach(n, now, evs, k - 1), evs[k - 1])
  }

  // ---------------------------------------------------------------- the invariant

  ghost predicate ProcOk(s: State, p: nat)
    requires p < |s.procs|
  {
    var pc := s.procs[p];
    && (Reading(pc) <==> p in s.readers)
    && (Writing(pc) <==> s.writer == p)
    && (Reading(pc) ==> s.writer == -1 && pc.began == |s.commits| && pc.before <= |s.sections|)
    && (pc.HaveData? || pc.HaveBoth? ==> pc.data == s.data)
    && (pc.HaveBoth? ==> pc.time == s.time)
    && (pc.DataSet? ==> s.data == pc.v)
    && (pc.BothSet? ==> |s.commits| > 0 && s.commits[|s.commits| - 1] == Pair(s.data, s.time))
  }

  /** Unless a writer is between its first store and its commit, memory holds the last committed pair. */
  ghost predicate MemoryOk(s: State) {
    && |s.commits| > 0
    && -1 <= s.writer < |s.procs|
    && (s.writer == -1 || s.procs[s.writer].WriteLocked? || s.procs[s.writer].BothSet? ==>
          s.commits[|s.commits| - 1] == Pair(s.data, s.time))
  }

  /** Section `j` read the pair that was the last one committed when it began, and every section that
      had finished by then had read that pair or an older one. */
  ghost predicate SectionOk(s: State, j: nat)
    requires j < |s.sections|
  {
    var r := s.sections[j];
    && 1 <= r.began <= |s.commits| && r.got == s.commits[r.began - 1]
    && r.before <= j
    && forall i: nat :: i < r.before ==> s.sections[i].began <= r.began
  }

  ghost predicate Inv(s: State) {
    && MemoryOk(s)
    && (forall p: nat :: p < |s.procs| ==> ProcOk(s, p))
    && (forall j: nat :: j < |s.sections| ==> SectionOk(s, j))
  }

  lemma {:induction false} ReadUnlockKeeps(s: State, p: nat, jiffies: nat)
    requires Inv(s) && p < |s.procs| && s.procs[p].HaveBoth?
    ensures forall j: nat :: j <= |s.sections| ==> SectionOk(StepProc(s, p, jiffies), j)
  {
    var t, n := StepProc(s, p, jiffies), |s.sections|;
    assert ProcOk(s, p);
    forall j: nat | j <= n
      ensures SectionOk(t, j)
    {
      if j < n {
        assert SectionOk(s, j);
      } else {
        forall i: nat | i < t.sections[n].before
          ensures t.sections[i].began <= t.sections[n].began
        {
          assert SectionOk(s, i);
        }
      }
    }
  }

  lemma {:induction false} OtherStepsKeepSections(s: State, t: State)
    requires forall j: nat :: j < |s.sections| ==> SectionOk(s, j)
    requires t.sections == s.sections && |s.commits| <= |t.commits| && t.commits[..|s.commits|] == s.commits
    ensures forall j: nat :: j < |t.sections| ==> SectionOk(t, j)
  {
    forall j: nat | j < |t.sections|
      ensures SectionOk(t, j)
    {
      assert SectionOk(s, j);
      var k := s.sections[j].began - 1;
      assert t.commits[..|s.commits|][k] == t.commits[k];
    }
  }

  lemma {:induction false} NextKeepsInv(s: State, ev: Event)
    requires Inv(s)
    ensures Inv(Next(s, ev))
  {
    var t := Next(s, ev);
    if t != s {
      var p := ev.p;
      assert ProcOk(s, p);
      forall q: nat | q < |t.procs|
        ensures ProcOk(t, q)
      {
        assert ProcOk(s, q);
      }
      if ev.Step? && s.procs[p].HaveBoth? {
        ReadUnlockKeeps(s, p, ev.jiffies);
      } else {
        OtherStepsKeepSections(s, t);
      }
    }
  }

  lemma {:induction false} ReachInv(n: nat, now: nat, evs: seq<Event>, k: nat)
    requires k <= |evs|
    ensures Inv(Reach(n, now, evs, k))
  {
    if k == 0 {
    } else {
      ReachInv(n, now, evs, k - 1);
      NextKeepsInv(Reach(n, now, evs, k - 1), evs[k - 1]);
    }
  }

  /** In every run a reader's pair was committed together by one writer, or is the initial pair: it is the
      last pair committed when its section began. */
  lemma {:induction false} PairsAreWhole(n: nat, now: nat, evs: seq<Event>, j: nat)
    requires j < |Reach(n, now, evs, |evs|).sections|
    ensures var s := Reach(n, now, evs, |evs|);
      var r := s.sections[j];
      1 <= r.began <= |s.commits| && r.got == s.commits[r.began - 1]
  {
    ReachInv(n, now, evs, |evs|);
    assert SectionOk(Reach(n, now, evs, |evs|), j);
  }

  /** Of two reader sections that do not overlap, the later one never reads an older commit. */
  lemma {:induction false} ReadsDoNotGoBack(n: nat, now: nat, evs: seq<Event>, i: nat, j: nat)
    requires j < |Reach(n, now, evs, |evs|).sections| && i < Reach(n, now, evs, |evs|).sections[j].before
    ensures var s := Reach(n, now, evs, |evs|);
      i < j && s.sections[i].began <= s.sections[j].began
  {
    ReachInv(n, now, evs, |evs|);
    assert SectionOk(Reach(n, now, evs, |evs|), j);
  }

  /** The lock excludes: a writer is alone in its section. */
  lemma {:induction false} WriterIsAlone(n: nat, now: nat, evs: seq<Event>, p: nat, q: nat)
    requires p < n && q < n && p != q
    ensures var s := Reach(n, now, evs, |evs|);
      Writing(s.procs[p]) ==> !Writing(s.procs[q]) && !Reading(s.procs[q])
  {
    var s := Reach(n, now, evs, |evs|);
    ReachInv(n, now, evs, |evs|);
    assert ProcOk(s, p) && ProcOk(s, q);
  }

  // ---------------------------------------------------------------- commits are writes of the run

  ghost predicate InCall(n: nat, now: nat, evs: seq<Event>, p: nat, m: nat) {
    p < n && m <= |evs| && !Reach(n, now, evs, m).procs[p].Outside?
  }

  /** Event `e` is a write of `v` by process `p`, which is in that call from then on up to `k`. */
  ghost predicate Writes(n: nat, now: nat, evs: seq<Event>, p: nat, v: int, e: nat, k: nat) {
    && p < n && e < k <= |evs| && evs[e] == Write(p, v) && Reach(n, now, evs, e).procs[p].Outside?
    && forall m: nat :: e < m <= k ==> InCall(n, now, evs, p, m)
  }

  lemma {:induction false} WritesLater(n: nat, now: nat, evs: seq<Event>, p: nat, v: int, e: nat, k: nat)
    requires Writes(n, now, evs, p, v, e, k) && InCall(n, now, evs, p, k + 1)
    ensures Writes(n, now, evs, p, v, e, k + 1)
  {
  }

  predicate HasValue(pc: Pc) {
    pc.WantWrite? || pc.WriteLocked? || pc.DataSet?
  }

  lemma {:induction false} ValueStep(s: State, ev: Event, p: nat)
    requires p < |s.procs| && p < |Next(s, ev).procs| && HasValue(Next(s, ev).procs[p])
    ensures var v := Next(s, ev).procs[p].v;
      || (HasValue(s.procs[p]) && s.procs[p].v == v)
      || (s.procs[p].Outside? && ev == Write(p, v))
  {
  }

  /** The value a writer carries is the one it was asked to write. */
  lemma {:induction false} ValueWasAsked(n: nat, now: nat, evs: seq<Event>, p: nat, k: nat) returns (e: nat)
    requires p < n && k <= |evs| && HasValue(Reach(n, now, evs, k).procs[p])
    ensures Writes(n, now, evs, p, Reach(n, now, evs, k).procs[p].v, e, k)
  {
    assert InCall(n, now, evs, p, k);
    e := k - 1;
    ValueStep(Reach(n, now, evs, k - 1), evs[k - 1], p);
    if HasValue(Reach(n, now, evs, k - 1).procs[p]) {
      e := ValueWasAsked(n, now, evs, p, k - 1);
      WritesLater(n, now, evs, p, Reach(n, now, evs, k - 1).procs[p].v, e, k - 1);
    }
  }

  /** At event `f`, process `p` stores the time and so commits pair number `i`. */
  ghost predicate CommitsAt(n: nat, now: nat, evs: seq<Event>, p: nat, f: nat, i: nat) {
    && p < n && f < |evs| && evs[f].Step? && evs[f].p == p
    && var s := Reach(n, now, evs, f);
    && s.procs[p].DataSet? && |s.commits| == i
    && Reach(n, now, evs, f + 1).commits == s.commits + [Pair(s.procs[p].v, evs[f].jiffies)]
  }

  lemma {:induction false} FindCommit(n: nat, now: nat, evs: seq<Event>, k: nat, i: nat) returns (f: nat)
    requires k <= |evs| && 0 < i < |Reach(n, now, evs, k).commits|
    ensures f < k && CommitsAt(n, now, evs, evs[f].p, f, i)
  {
    f := k - 1;
    if i < |Reach(n, now, evs, k - 1).commits| {
      f := FindCommit(n, now, evs, k - 1, i);
    }
  }

  lemma {:induction false} CommitsGrow(n: nat, now: nat, evs: seq<Event>, m: nat, k: nat)
    requires m <= k <= |evs|
    ensures Reach(n, now, evs, m).commits <= Reach(n, now, evs, k).commits
    decreases k
  {
    if m == k {
    } else {
      CommitsGrow(n, now, evs, m, k - 1);
    }
  }

  /** Commit number `i` comes from one call: the write of a value at event `e`, and the store of the time,
      in that same call, at event `f`. */
  ghost predicate CommitOf(n: nat, now: nat, evs: seq<Event>, i: nat, p: nat, e: nat, f: nat) {
    && CommitsAt(n, now, evs, p, f, i) && e < f && evs[e].Write?
    && Writes(n, now, evs, p, evs[e].v, e, f)
    && var commits := Reach(n, now, evs, |evs|).commits;
    i < |commits| && commits[i] == Pair(evs[e].v, evs[f].jiffies)
  }

  /** Every pair but the initial one has the value a write asked for and the time at which it was stored. */
  lemma {:induction false} CommitIsWrite(n: nat, now: nat, evs: seq<Event>, i: nat) returns (p: nat, e: nat, f: nat)
    requires 0 < i < |Reach(n, now, evs, |evs|).commits|
    ensures CommitOf(n, now, evs, i, p, e, f)
  {
    f := FindCommit(n, now, evs, |evs|, i);
    p := evs[f].p;
    e := ValueWasAsked(n, now, evs, p, f);
    CommitsGrow(n, now, evs, f + 1, |evs|);
  }

  lemma {:induction false} InitialPair(n: nat, now: nat, evs: seq<Event>)
    ensures |Reach(n, now, evs, |evs|).commits| > 0 && Reach(n, now, evs, |evs|).commits[0] == Pair(0, now)
  {
    CommitsGrow(n, now, evs, 0, |evs|);
  }

  lemma {:induction false} CommittedStays(n: nat, now: nat, evs: seq<Event>, p: nat, f: nat, i: nat, k: nat)
    requires CommitsAt(n, now, evs, p, f, i) && f < k <= |evs|
    requires forall m: nat :: f < m <= k ==> InCall(n, now, evs, p, m)
    ensures Reach(n, now, evs, k).procs[p].BothSet?
    decreases k
  {
    assert InCall(n, now, evs, p, k);
    if k == f + 1 {
    } else {
      CommittedStays(n, now, evs, p, f, i, k - 1);
    }
  }

  /** One write commits once: different pairs come from different write events. */
  lemma {:induction false} OneCommitPerWrite(n: nat, now: nat, evs: seq<Event>, i: nat, j: nat,
                                             p: nat, e: nat, f: nat, q: nat, g: nat, h: nat)
    requires i < j && CommitOf(n, now, evs, i, p, e, f) && CommitOf(n, now, evs, j, q, g, h)
    ensures e != g
  {
    if h <= f {
      CommitsGrow(n, now, evs, h, f);
    }
    if e == g {
      CommittedStays(n, now, evs, p, f, i, h);
    }
  }

  // ---------------------------------------------------------------- sections are reads of the run

  ghost predicate InSection(n: nat, now: nat, evs: seq<Event>, p: nat, m: nat) {
    p < n && m <= |evs| && Reading(Reach(n, now, evs, m).procs[p])
  }

  /** Process `p` takes the read lock at event `g` and is in that section up to `k`. */
  ghost predicate LocksAt(n: nat, now: nat, evs: seq<Event>, p: nat, g: nat, k: nat) {
    && p < n && g < k <= |evs| && evs[g].Step? && evs[g].p == p
    && Reach(n, now, evs, g).procs[p].WantRead? && Reach(n, now, evs, g).writer == -1
    && forall m: nat :: g < m <= k ==> InSection(n, now, evs, p, m)
  }

  lemma {:induction false} ReaderStep(s: State, ev: Event, p: nat)
    requires p < |s.procs| && p < |Next(s, ev).procs| && Reading(Next(s, ev).procs[p])
    ensures var pc := Next(s, ev).procs[p];
      || (Reading(s.procs[p]) && s.procs[p].began == pc.began && s.procs[p].before == pc.before)
      || (s.procs[p].WantRead? && ev.Step? && ev.p == p && s.writer == -1
          && pc.began == |s.commits| && pc.before == |s.sections|)
  {
  }

  lemma {:induction false} ReaderLocked(n: nat, now: nat, evs: seq<Event>, p: nat, k: nat) returns (g: nat)
    requires p < n && k <= |evs| && Reading(Reach(n, now, evs, k).procs[p])
    ensures LocksAt(n, now, evs, p, g, k)
    ensures var pc := Reach(n, now, evs, k).procs[p];
      pc.began == |Reach(n, now, evs, g).commits| && pc.before == |Reach(n, now, evs, g).sections|
  {
    assert InSection(n, now, evs, p, k);
    g := k - 1;
    ReaderStep(Reach(n, now, evs, k - 1), evs[k - 1], p);
    if Reading(Reach(n, now, evs, k - 1).procs[p]) {
      g := ReaderLocked(n, now, evs, p, k - 1);
      LocksLater(n, now, evs, p, g, k - 1);
    }
  }

  lemma {:induction false} LocksLater(n: nat, now: nat, evs: seq<Event>, p: nat, g: nat, k: nat)
    requires LocksAt(n, now, evs, p, g, k) && InSection(n, now, evs, p, k + 1)
    ensures LocksAt(n, now, evs, p, g, k + 1)
  {
  }

  /** Section number `j` was locked at event `g` and finished at event `h`, by the same process. */
  ghost predicate SectionOf(n: nat, now: nat, evs: seq<Event>, j: nat, p: nat, g: nat, h: nat) {
    && h < |evs| && evs[h].Step? && evs[h].p == p && LocksAt(n, now, evs, p, g, h)
    && |Reach(n, now, evs, h).sections| == j && Reach(n, now, evs, h).procs[p].HaveBoth?
    && var sections := Reach(n, now, evs, |evs|).sections;
    && j < |sections| && sections[j].began == |Reach(n, now, evs, g).commits|
    && sections[j].before == |Reach(n, now, evs, g).sections|
  }

  lemma {:induction false} FindSection(n: nat, now: nat, evs: seq<Event>, k: nat, j: nat) returns (h: nat)
    requires k <= |evs| && j < |Reach(n, now, evs, k).sections|
    ensures h < k && evs[h].Step? && evs[h].p < n && |Reach(n, now, evs, h).sections| == j
    ensures var pc := Reach(n, now, evs, h).procs[evs[h].p];
      pc.HaveBoth? && Reach(n, now, evs, h + 1).sections
                      == Reach(n, now, evs, h).sections + [Section(pc.before, pc.began, Pair(pc.data, pc.time))]
  {
    h := k - 1;
    if j < |Reach(n, now, evs, k - 1).sections| {
      h := FindSection(n, now, evs, k - 1, j);
    }
  }

  lemma {:induction false} SectionsGrow(n: nat, now: nat, evs: seq<Event>, m: nat, k: nat)
    requires m <= k <= |evs|
    ensures Reach(n, now, evs, m).sections <= Reach(n, now, evs, k).sections
    decreases k
  {
    if m == k {
    } else {
      SectionsGrow(n, now, evs, m, k - 1);
    }
  }

  lemma {:induction false} SectionIsRead(n: nat, now: nat, evs: seq<Event>, j: nat) returns (p: nat, g: nat, h: nat)
    requires j < |Reach(n, now, evs, |evs|).sections|
    ensures SectionOf(n, now, evs, j, p, g, h)
  {
    h := FindSection(n, now, evs, |evs|, j);
    p := evs[h].p;
    g := ReaderLocked(n, now, evs, p, h);
    SectionsGrow(n, now, evs, h + 1, |evs|);
  }

  /** What a reader gets, over the run: the initial pair if nothing had been committed when it took the lock;
      otherwise the value asked for and the time stored by the last write that had committed by then. */
  lemma {:induction false} ReadsLastWrite(n: nat, now: nat, evs: seq<Event>, j: nat, p: nat, g: nat, h: nat)
    returns (q: nat, e: nat, f: nat)
    requires SectionOf(n, now, evs, j, p, g, h)
    ensures var got, done := Reach(n, now, evs, |evs|).sections[j].got, |Reach(n, now, evs, g).commits|;
      && done > 0
      && (done == 1 ==> got == Pair(0, now))
      && (done > 1 ==> CommitOf(n, now, evs, done - 1, q, e, f) && f < g && got == Pair(evs[e].v, evs[f].jiffies))
  {
    var done := |Reach(n, now, evs, g).commits|;
    PairsAreWhole(n, now, evs, j);
    InitialPair(n, now, evs);
    q, e, f := 0, 0, 0;
    if done > 1 {
      CommitsGrow(n, now, evs, g, |evs|);
      q, e, f := CommitIsWrite(n, now, evs, done - 1);
      if g <= f {
        CommitsGrow(n, now, evs, g, f);
      }
    }
  }

  /** Of two sections the second of which was locked after the first had finished, the second does not read
      an older commit. */
  lemma {:induction false} LaterReadsNewer(n: nat, now: nat, evs: seq<Event>, i: nat, j: nat,
                                           p: nat, g: nat, h: nat, p': nat, g': nat, h': nat)
    requires SectionOf(n, now, evs, i, p, g, h) && SectionOf(n, now, evs, j, p', g', h') && h < g'
    ensures var rs := Reach(n, now, evs, |evs|).sections;
      i < j && rs[i].began <= rs[j].began
  {
    SectionsGrow(n, now, evs, h + 1, g');
    ReadsDoNotGoBack(n, now, evs, i, j);
  }

  /** In every reachable state a reader gets the lock exactly when no writer is inside, other readers or not,
      and a writer exactly when nobody is. */
  lemma {:induction false} LockGrants(n: nat, now: nat, evs: seq<Event>, p: nat, j: nat)
    requires p < n
    ensures var s := Reach(n, now, evs, |evs|);
      var t := Next(s, Step(p, j));
      && (s.procs[p].WantRead? ==> (Reading(t.procs[p]) <==> forall q: nat :: q < n ==> !Writing(s.procs[q])))
      && (s.procs[p].WantWrite? ==>
            (Writing(t.procs[p]) <==> forall q: nat :: q < n ==> !Writing(s.procs[q]) && !Reading(s.procs[q])))
  {
    var s := Reach(n, now, evs, |evs|);
    ReachInv(n, now, evs, |evs|);
    assert ProcOk(s, p);
    forall q: nat | q < n
      ensures (Writing(s.procs[q]) <==> s.writer == q) && (Reading(s.procs[q]) <==> q in s.readers)
    {
      assert ProcOk(s, q);
    }
    if s.writer != -1 {
      assert Writing(s.procs[s.writer]);
    }
    InsideAreKnown(n, now, evs, |evs|);
    if q :| q in s.readers {
      assert Reading(s.procs[q]);
    }
  }

  lemma {:induction false} InsideAreKnown(n: nat, now: nat, evs: seq<Event>, k: nat)
    requires k <= |evs|
    ensures forall q :: q in Reach(n, now, evs, k).readers ==> q < n
  {
    if k == 0 {
    } else {
      InsideAreKnown(n, now, evs, k - 1);
    }
  }

  /** A writer alone: the value is stored at its second step and the time at its third. */
  function WriteAlone(s: State, p: nat, v: int, j: nat): State {
    Next(Next(Next(Next(Next(s, Write(p, v)), Step(p, 0)), Step(p, 0)), Step(p, j)), Step(p, 0))
  }

  function ReadAlone(s: State, p: nat): State {
    Next(Next(Next(Next(Next(s, Read(p, 0)), Step(p, 0)), Step(p, 0)), Step(p, 0)), Step(p, 0))
  }

  ghost predicate Unlocked(s: State, p: nat) {
    p < |s.procs| && s.procs[p].Outside? && s.readers == {} && s.writer == -1
  }

  lemma {:induction false} SoloWrite(s: State, p: nat, v: int, j: nat)
    requires Unlocked(s, p)
    ensures WriteAlone(s, p, v, j) == s.(data := v, time := j, commits := s.commits + [Pair(v, j)])
  {
    assert Next(Next(s, Write(p, v)), Step(p, 0)) == s.(writer := p, procs := s.procs[p := WriteLocked(v)]);
    assert s.procs[p := Outside] == s.procs;
  }

  lemma {:induction false} SoloRead(s: State, p: nat)
    requires Unlocked(s, p)
    ensures ReadAlone(s, p)
         == s.(sections := s.sections + [Section(|s.sections|, |s.commits|, Pair(s.data, s.time))])
    ensures forall pos: nat :: pos > 0 ==> Next(s, Read(p, pos)) == s
  {
    assert Next(Next(s, Read(p, 0)), Step(p, 0))
        == s.(readers := {p}, procs := s.procs[p := ReadLocked(|s.sections|, |s.commits|)]);
    assert s.procs[p := Outside] == s.procs;
  }

  /** From every reachable state with nobody inside, a write and then a read give back the value and the time. */
  lemma {:induction false} WriteThenRead(n: nat, now: nat, evs: seq<Event>, p: nat, v: int, j: nat)
    requires Unlocked(Reach(n, now, evs, |evs|), p)
    ensures var s := Reach(n, now, evs, |evs|);
      var u := ReadAlone(WriteAlone(s, p, v, j), p);
      |u.sections| == |s.sections| + 1 && u.sections[|s.sections|].got == Pair(v, j) && Unlocked(u, p)
  {
    var s := Reach(n, now, evs, |evs|);
    SoloWrite(s, p, v, j);
    SoloRead(WriteAlone(s, p, v, j), p);
  }
}

/** The virtual log: a 100-slot buffer that shifts when it is full, read through a seq_file
    iterator whose position is saved between sessions while writers keep adding.

    Adding an entry and showing an entry are atomic steps of the model. */
module VirtualLog {
  import opened CStrings

  const MAX_LOG_ENTRIES: nat := 100
  const MESSAGE_SIZE: nat := 64
  const NUL: char := '\0'

  datatype Entry = Entry(timestamp: nat, id: int, message: seq<char>)
  datatype LogState = LogState(entries: seq<Entry>, nextId: int)

  /** One call of `add_log_entry`: the time it is made and the C string passed. */
  datatype Added = Added(timestamp: nat, message: seq<char>)

  // ---------------------------------------------------------------- C strings

  /** The array `message[64]` after `strncpy(message, text, 63)` and the final terminator. */
  function Stored(text: seq<char>): (r: seq<char>)
    ensures |r| == MESSAGE_SIZE && r[MESSAGE_SIZE - 1] == NUL
  {
    var kept := if |text| < MESSAGE_SIZE then text else text[..MESSAGE_SIZE - 1];
    kept + seq(MESSAGE_SIZE - |kept|, _ => NUL)
  }

  function FirstChars(text: seq<char>): seq<char> {
    if |text| <= 63 then text else text[..63]
  }

  /** Reading back a stored message gives its first 63 characters. */
  lemma {:induction false} StoredReadsBack(text: seq<char>)
    requires NUL !in text
    ensures CString(Stored(text), NUL) == FirstChars(text)
  {
    var kept := if |text| < MESSAGE_SIZE then text else text[..MESSAGE_SIZE - 1];
    assert Stored(text)[|kept|] == NUL && Stored(text)[..|kept|] == kept;
    CStringUnique(Stored(text), NUL, |kept|);
  }

  function EntryOf(a: Added, id: int): Entry {
    Entry(a.timestamp, id, Stored(a.message))
  }

  // ---------------------------------------------------------------- adding

  function AddSpec(log: LogState, a: Added): LogState {
    var e := EntryOf(a, log.nextId);
    if |log.entries| < MAX_LOG_ENTRIES then LogState(log.entries + [e], log.nextId + 1)
    else LogState(log.entries[1..] + [e], log.nextId + 1)
  }

  /** The log after a sequence of additions, from the module's initial state. */
  function LogAfter(added: seq<Added>, n: nat): LogState
    requires n <= |added|
  {
    if n == 0 then LogState([], 1) else AddSpec(LogAfter(added, n - 1), added[n - 1])
  }

  function Dropped(n: nat): nat {
    if n <= MAX_LOG_ENTRIES then 0 else n - MAX_LOG_ENTRIES
  }

  /** After any additions the log is the last 100 of them, in order, with consecutive ids ending at n. */
  lemma {:induction false} LogHoldsLast(added: seq<Added>, n: nat)
    requires n <= |added|
    ensures LogAfter(added, n).nextId == n + 1
    ensures LogAfter(added, n).entries
         == seq(n - Dropped(n), i requires 0 <= i < n - Dropped(n) =>
                                  EntryOf(added[Dropped(n) + i], Dropped(n) + i + 1))
  {
    if n == 0 {
    } else {
      LogHoldsLast(added, n - 1);
    }
  }

  /** What is held, field by field: entry `i` has the time and the text, cut to 63 characters, of addition
      number max(0, n - 100) + i, and the id one above that number. */
  lemma {:induction false} HeldEntry(added: seq<Added>, n: nat, i: nat)
    requires n <= |added| && i < |LogAfter(added, n).entries|
    ensures |LogAfter(added, n).entries| == if n <= 100 then n else 100
    ensures var e, j := LogAfter(added, n).entries[i], i + if n <= 100 then 0 else n - 100;
      && j < n && e.timestamp == added[j].timestamp && e.id == j + 1 && |e.message| == 64
      && (NUL !in added[j].message ==> CString(e.message, NUL) == FirstChars(added[j].message))
  {
    LogHoldsLast(added, n);
    var j := i + Dropped(n);
    assert LogAfter(added, n).entries[i] == EntryOf(added[j], j + 1);
    EntryFields(added[j], j + 1);
  }

  lemma {:induction false} EntryFields(a: Added, id: int)
    ensures var e := EntryOf(a, id);
      && e.timestamp == a.timestamp && e.id == id && |e.message| == 64
      && (NUL !in a.message ==> CString(e.message, NUL) == FirstChars(a.message))
  {
    if NUL !in a.message {
      StoredReadsBack(a.message);
    }
  }

  // ---------------------------------------------------------------- the iterator, on values

  /** `log_seq_start`: the entry at the position, or NULL. */
  function StartSpec(log: LogState, pos: nat): (slot: int)
    ensures slot == -1 || 0 <= slot < |log.entries|
  {
    if pos >= |log.entries| then -1 else pos
  }

  // ---------------------------------------------------------------- the module's state

  class Log {
    const buffer: array<Entry>
    var count: nat
    var nextId: int

    ghost predicate Valid()
      reads this
    {
      buffer.Length == MAX_LOG_ENTRIES && count <= MAX_LOG_ENTRIES
    }

    ghost function State(): LogState
      requires Valid()
      reads this, buffer
    {
      LogState(buffer[..count], nextId)
    }

    constructor ()
      ensures Valid() && fresh(buffer)
      ensures State() == LogState([], 1)
    {
      buffer := new Entry[MAX_LOG_ENTRIES](_ => Entry(0, 0, seq(MESSAGE_SIZE, _ => NUL)));
      count := 0;
      nextId := 1;
    }

    /** `add_log_entry`. */
    method AddLogEntry(message: seq<char>, jiffies: nat)
      requires Valid()
      modifies this, buffer
      ensures Valid() && State() == AddSpec(old(State()), Added(jiffies, message))
      ensures var es, was := State().entries, old(State()).entries;
        && es != [] && es[..|es| - 1] == (if |was| < 100 then was else was[1..])
        && es[|es| - 1].timestamp == jiffies && es[|es| - 1].id == old(nextId) && nextId == old(nextId) + 1
        && (NUL !in message ==> CString(es[|es| - 1].message, NUL) == FirstChars(message))
    {
      if NUL !in message {
        StoredReadsBack(message);
      }
      if count < MAX_LOG_ENTRIES {
        buffer[count] := Entry(jiffies, nextId, Stored(message));
        nextId := nextId + 1;
        count := count + 1;
      } else {
        forall i | 0 <= i < MAX_LOG_ENTRIES - 1 {
          buffer[i] := buffer[i + 1];
        }
        buffer[MAX_LOG_ENTRIES - 1] := Entry(jiffies, nextId, Stored(message));
        nextId := nextId + 1;
        assert State().entries == old(State()).entries[1..] + [Entry(jiffies, nextId - 1, Stored(message))];
      }
    }

    /** `log_proc_write`: `Err` is the negative error code, and then nothing changes. */
    method Write(user: seq<char>, gotMemory: bool, faulted: bool, jiffies: nat) returns (r: WriteResult)
      requires Valid() && |user| >= 1
      modifies this, buffer
      ensures Valid()
      ensures |user| > 63 ==> r == Err(EINVAL)
      ensures |user| <= 63 && !gotMemory ==> r == Err(ENOMEM)
      ensures |user| <= 63 && gotMemory && faulted ==> r == Err(EFAULT)
      ensures |user| <= 63 && gotMemory && !faulted ==> r == Wrote(|user|)
      ensures r.Wrote? && NUL !in user ==>
        && State().entries != []
        && CString(State().entries[|State().entries| - 1].message, NUL)
           == if user[|user| - 1] == '\n' then user[..|user| - 1] else user
      ensures State() == match r
                         case Err(_) => old(State())
                         case Wrote(_) => AddSpec(old(State()), Added(jiffies, MessageOf(user)))
    {
      if |user| > MESSAGE_SIZE - 1 {
        return Err(EINVAL);
      }
      if !gotMemory {
        return Err(ENOMEM);
      }
      if faulted {
        return Err(EFAULT);
      }
      var kernelBuffer := user + [NUL];
      if kernelBuffer[|user| - 1] == '\n' {
        kernelBuffer := kernelBuffer[|user| - 1 := NUL];
      }
      AddLogEntry(CString(kernelBuffer, NUL), jiffies);
      CStringOfWrite(user);
      if NUL !in user {
        PlainMessage(user);
      }
      return Wrote(|user|);
    }

    /** `log_seq_start`. */
    method Start(pos: nat) returns (slot: int)
      requires Valid()
      ensures slot == StartSpec(State(), pos)
      ensures slot == if pos < |State().entries| then pos else -1
    {
      if pos >= count {
        return -1;
      }
      return pos;
    }

    /** `log_seq_next`. */
    method Next(pos: nat) returns (pos': nat, slot: int)
      requires Valid()
      ensures pos' == pos + 1 && slot == StartSpec(State(), pos + 1)
      ensures slot == if pos + 1 < |State().entries| then pos + 1 else -1
    {
      pos' := pos + 1;
      if pos' >= count {
        return pos', -1;
      }
      return pos', pos';
    }

    /** `log_seq_show`. */
    method Show(slot: nat) returns (e: Entry)
      requires Valid() && slot < |State().entries|
      ensures e == State().entries[slot]
    {
      e := buffer[slot];
    }
  }

  datatype Errno = EINVAL | ENOMEM | EFAULT
  datatype WriteResult = Wrote(count: nat) | Err(errno: Errno)

  /** What a write logs: the text up to the first NUL, without a final newline. */
  function MessageOf(user: seq<char>): seq<char>
    requires |user| >= 1
  {
    CString(if user[|user| - 1] == '\n' then user[..|user| - 1] else user, NUL)
  }

  lemma {:induction false} PlainMessage(user: seq<char>)
    requires |user| >= 1 && NUL !in user
    ensures MessageOf(user) == if user[|user| - 1] == '\n' then user[..|user| - 1] else user
  {
    var text := if user[|user| - 1] == '\n' then user[..|user| - 1] else user;
    CStringUnique(text, NUL, |text|);
  }

  lemma {:induction false} CStringOfWrite(user: seq<char>)
    requires |user| >= 1
    ensures var k := user + [NUL];
      CString(if user[|user| - 1] == '\n' then k[|user| - 1 := NUL] else k, NUL) == MessageOf(user)
  {
    var k, last := user + [NUL], |user| - 1;
    if user[last] == '\n' {
      assert k[last := NUL] == user[..last] + [NUL] + [NUL];
      CStringTerminated(user[..last], NUL, [NUL]);
    } else {
      assert k == user + [NUL] + [];
      CStringTerminated(user, NUL, []);
    }
  }

  // ---------------------------------------------------------------- a reader pass among writers

  /** Where the iterator is: between sessions, holding an entry not yet shown, or holding one it has shown. */
  datatype Cursor = Idle | Holding(slot: nat) | Shown(slot: nat)

  /** An entry the reader got, with the number of overwrites that had happened by then. */
  datatype Emission = Emission(entry: Entry, overwrites: nat)

  /** One open file's pass over the log. `overwrites` counts the additions that found the buffer full. */
  datatype Pass = Pass(added: seq<Added>, log: LogState, overwrites: nat,
                       pos: nat, cursor: Cursor, emitted: seq<Emission>)

  /** What can happen, in any order: a write, and the calls that seq_file makes. An entry whose text
      does not fit the reader's buffer is discarded by seq_file and shown again in a later session,
      so such a show is no event here; after a show that is kept, seq_file calls `next` before `stop`. */
  datatype Event = Add(a: Added) | Start | Show | Next | Stop

  function Step(s: Pass, ev: Event): Pass {
    match ev
    case Add(a) =>
      var full := |s.log.entries| >= MAX_LOG_ENTRIES;
      s.(added := s.added + [a], log := AddSpec(s.log, a),
         overwrites := if full then s.overwrites + 1 else s.overwrites)
    case Start =>
      var slot := StartSpec(s.log, s.pos);
      if s.cursor.Idle? && slot >= 0 then s.(cursor := Holding(slot)) else s
    case Show =>
      if s.cursor.Holding? && s.cursor.slot < |s.log.entries| then
        s.(cursor := Shown(s.cursor.slot),
           emitted := s.emitted + [Emission(s.log.entries[s.cursor.slot], s.overwrites)])
      else s
    case Next =>
      if s.cursor.Shown? then
        var slot := StartSpec(s.log, s.pos + 1);
        s.(pos := s.pos + 1, cursor := if slot >= 0 then Holding(slot) else Idle)
      else s
    case Stop =>
      if s.cursor.Holding? then s.(cursor := Idle) else s
  }

  function Run(s: Pass, evs: seq<Event>, n: nat): Pass
    requires n <= |evs|
  {
    if n == 0 then s else Step(Run(s, evs, n - 1), evs[n - 1])
  }

  /** A file just opened, after any additions. */
  ghost predicate Opened(s: Pass) {
    && s.log == LogAfter(s.added, |s.added|)
    && s.overwrites == Dropped(|s.added|)
    && s.pos == 0 && s.cursor.Idle? && s.emitted == []
  }

  ghost predicate LogInv(s: Pass) {
    s.log == LogAfter(s.added, |s.added|) && s.overwrites == Dropped(|s.added|)
  }

  ghost predicate CursorInv(s: Pass) {
    && s.pos <= |s.log.entries|
    && (!s.cursor.Idle? ==> s.cursor.slot == s.pos < |s.log.entries|)
    && |s.emitted| == s.pos + if s.cursor.Shown? then 1 else 0
  }

  /** The `k`-th entry the reader got: its id is fixed by its rank and the overwrites before it,
      and it is the entry added under that id. */
  ghost predicate EmissionOk(s: Pass, k: nat)
    requires k < |s.emitted|
  {
    var m := s.emitted[k];
    && m.entry.id == 1 + k + m.overwrites
    && m.overwrites <= s.overwrites
    && k + m.overwrites < |s.added|
    && m.entry == EntryOf(s.added[k + m.overwrites], m.entry.id)
  }

  ghost predicate EmittedInv(s: Pass) {
    && (forall k: nat :: k < |s.emitted| ==> EmissionOk(s, k))
    && (forall k: nat, l: nat :: k <= l < |s.emitted| ==> s.emitted[k].overwrites <= s.emitted[l].overwrites)
  }

  ghost predicate Inv(s: Pass) {
    LogInv(s) && CursorInv(s) && EmittedInv(s)
  }

  lemma {:induction false} LogAfterExtend(added: seq<Added>, a: Added, n: nat)
    requires n <= |added|
    ensures LogAfter(added + [a], n) == LogAfter(added, n)
  {
    if n == 0 {
    } else {
      LogAfterExtend(added, a, n - 1);
    }
  }

  lemma {:induction false} AddKeepsInv(s: Pass, a: Added)
    requires Inv(s)
    ensures Inv(Step(s, Add(a)))
  {
    var t, n := Step(s, Add(a)), |s.added|;
    LogAfterExtend(s.added, a, n);
    assert LogAfter(t.added, n + 1) == AddSpec(LogAfter(t.added, n), t.added[n]);
    LogHoldsLast(s.added, n);
    assert LogInv(t) && CursorInv(t);
    forall k: nat | k < |t.emitted|
      ensures EmissionOk(t, k)
    {
      assert EmissionOk(s, k);
    }
  }

  lemma {:induction false} ShowKeepsInv(s: Pass)
    requires Inv(s) && s.cursor.Holding?
    ensures Inv(Step(s, Show))
  {
    var t, n, k := Step(s, Show), |s.added|, s.pos;
    LogHoldsLast(s.added, n);
    assert t.emitted[k] == Emission(EntryOf(s.added[Dropped(n) + k], Dropped(n) + k + 1), s.overwrites);
    forall i: nat | i < |t.emitted|
      ensures EmissionOk(t, i) && t.emitted[i].overwrites <= s.overwrites
    {
      if i < k {
        assert EmissionOk(s, i);
      }
    }
  }

  lemma {:induction false} StepKeepsInv(s: Pass, ev: Event)
    requires Inv(s)
    ensures Inv(Step(s, ev))
  {
    var t := Step(s, ev);
    if ev.Add? {
      AddKeepsInv(s, ev.a);
    } else if ev.Show? && s.cursor.Holding? {
      ShowKeepsInv(s);
    } else {
      assert t.emitted == s.emitted && CursorInv(t);
      forall k: nat | k < |t.emitted|
        ensures EmissionOk(t, k)
      {
        assert EmissionOk(s, k);
      }
    }
  }

  lemma {:induction false} RunKeepsInv(s: Pass, evs: seq<Event>, n: nat)
    requires Opened(s) && n <= |evs|
    ensures Inv(Run(s, evs, n))
  {
    if n == 0 {
    } else {
      RunKeepsInv(s, evs, n - 1);
      StepKeepsInv(Run(s, evs, n - 1), evs[n - 1]);
    }
  }

  /** For every interleaving of writes with a pass cut into any sessions: ids strictly increase, and two
      entries shown one after the other are apart by one plus the overwrites that happened in between. */
  lemma {:induction false} GapIsOverwrites(s: Pass, evs: seq<Event>, k: nat)
    requires Opened(s) && k + 1 < |Run(s, evs, |evs|).emitted|
    ensures var es := Run(s, evs, |evs|).emitted;
      && es[k].overwrites <= es[k + 1].overwrites
      && es[k + 1].entry.id - es[k].entry.id == 1 + (es[k + 1].overwrites - es[k].overwrites)
  {
    var t := Run(s, evs, |evs|);
    RunKeepsInv(s, evs, |evs|);
    assert EmissionOk(t, k) && EmissionOk(t, k + 1);
  }

  /** Every entry a reader gets was added: it has the time and the text of the addition that its id numbers. */
  lemma {:induction false} ShownWasAdded(s: Pass, evs: seq<Event>, k: nat)
    requires Opened(s) && k < |Run(s, evs, |evs|).emitted|
    ensures var t := Run(s, evs, |evs|);
      && 1 <= t.emitted[k].entry.id <= |t.added|
      && var e, a := t.emitted[k].entry, t.added[t.emitted[k].entry.id - 1];
      && e.timestamp == a.timestamp && |e.message| == 64
      && (NUL !in a.message ==> CString(e.message, NUL) == FirstChars(a.message))
  {
    var t := Run(s, evs, |evs|);
    RunKeepsInv(s, evs, |evs|);
    assert EmissionOk(t, k);
    EntryFields(t.added[t.emitted[k].entry.id - 1], t.emitted[k].entry.id);
  }

  /** The additions among the first `n` events. */
  function Adds(evs: seq<Event>, n: nat): nat
    requires n <= |evs|
  {
    if n == 0 then 0 else Adds(evs, n - 1) + if evs[n - 1].Add? then 1 else 0
  }

  /** How many of the first `n` additions to an empty log find it full. */
  function Overwrites(n: nat): nat {
    if n <= 100 then 0 else n - 100
  }

  /** Event `e` is the show that gave the reader entry `k`. */
  ghost predicate ShownAt(s: Pass, evs: seq<Event>, e: nat, k: nat) {
    && e < |evs| && evs[e] == Show
    && var t := Run(s, evs, e);
    && t.cursor.Holding? && t.cursor.slot < |t.log.entries| && |t.emitted| == k
    && k < |Run(s, evs, |evs|).emitted| && Run(s, evs, |evs|).emitted[k].entry == t.log.entries[t.cursor.slot]
    && Run(s, evs, |evs|).emitted[k].overwrites == Overwrites(|s.added| + Adds(evs, e))
  }

  lemma {:induction false} AddedCount(s: Pass, evs: seq<Event>, n: nat)
    requires n <= |evs|
    ensures |Run(s, evs, n).added| == |s.added| + Adds(evs, n)
  {
    if n == 0 {
    } else {
      AddedCount(s, evs, n - 1);
    }
  }

  lemma {:induction false} EmittedGrows(s: Pass, evs: seq<Event>, m: nat, n: nat)
    requires m <= n <= |evs|
    ensures Run(s, evs, m).emitted <= Run(s, evs, n).emitted
    decreases n
  {
    if m == n {
    } else {
      EmittedGrows(s, evs, m, n - 1);
    }
  }

  /** The show that made the list of emissions longer than `k`. */
  lemma {:induction false} FindShow(s: Pass, evs: seq<Event>, n: nat, k: nat) returns (e: nat)
    requires n <= |evs| && |s.emitted| <= k < |Run(s, evs, n).emitted|
    ensures e < n && evs[e] == Show && |Run(s, evs, e).emitted| == k
    ensures var t := Run(s, evs, e);
      && t.cursor.Holding? && t.cursor.slot < |t.log.entries|
      && Run(s, evs, e + 1).emitted == t.emitted + [Emission(t.log.entries[t.cursor.slot], t.overwrites)]
  {
    e := n - 1;
    if k < |Run(s, evs, n - 1).emitted| {
      e := FindShow(s, evs, n - 1, k);
    }
  }

  /** Each entry the reader got was shown at an event of the run, from the slot the iterator held. */
  lemma {:induction false} ShowOf(s: Pass, evs: seq<Event>, k: nat) returns (e: nat)
    requires Opened(s) && k < |Run(s, evs, |evs|).emitted|
    ensures ShownAt(s, evs, e, k)
  {
    e := FindShow(s, evs, |evs|, k);
    EmittedGrows(s, evs, e + 1, |evs|);
    RunKeepsInv(s, evs, e);
    AddedCount(s, evs, e);
  }

  /** Over the events of the run: of two entries got in succession, shown at events `e` and `f`, the second
      id is above the first by one plus the additions between the two shows that found the buffer full. */
  lemma {:induction false} GapOverRun(s: Pass, evs: seq<Event>, k: nat, e: nat, f: nat)
    requires Opened(s) && ShownAt(s, evs, e, k) && ShownAt(s, evs, f, k + 1)
    ensures var es := Run(s, evs, |evs|).emitted;
      es[k + 1].entry.id - es[k].entry.id
      == 1 + Overwrites(|s.added| + Adds(evs, f)) - Overwrites(|s.added| + Adds(evs, e))
  {
    GapIsOverwrites(s, evs, k);
  }

  /** The next `start` would report the end of the log. */
  predicate AtEnd(s: Pass) {
    s.cursor.Idle? && StartSpec(s.log, s.pos) == -1
  }

  lemma {:induction false} RunConcat(s: Pass, a: seq<Event>, b: seq<Event>, n: nat)
    requires n <= |b|
    ensures Run(s, a + b, |a| + n) == Run(Run(s, a, |a|), b, n)
  {
    if n == 0 {
      RunPrefix(s, a, b, |a|);
    } else {
      RunConcat(s, a, b, n - 1);
    }
  }

  lemma {:induction false} RunPrefix(s: Pass, a: seq<Event>, b: seq<Event>, n: nat)
    requires n <= |a|
    ensures Run(s, a + b, n) == Run(s, a, n)
  {
    if n == 0 {
    } else {
      RunPrefix(s, a, b, n - 1);
    }
  }

  /** The reader's next call, if it just keeps reading. */
  function ReadOn(s: Pass): Event {
    match s.cursor
    case Idle => Start
    case Holding(_) => Show
    case Shown(_) => Next
  }

  function Left(s: Pass): int {
    3 * (|s.log.entries| - s.pos) - match s.cursor
                                    case Idle => 0
                                    case Holding(_) => 1
                                    case Shown(_) => 2
  }

  lemma {:induction false} ReadOnAdvances(s: Pass)
    requires CursorInv(s) && !AtEnd(s)
    ensures CursorInv(Step(s, ReadOn(s))) && 0 <= Left(Step(s, ReadOn(s))) < Left(s)
  {
  }

  lemma {:induction false} ReadToEnd(s: Pass) returns (evs: seq<Event>)
    requires CursorInv(s)
    ensures AtEnd(Run(s, evs, |evs|)) && Quiet(evs)
    decreases Left(s)
  {
    evs := [];
    if AtEnd(s) {
    } else {
      ReadOnAdvances(s);
      var t := Step(s, ReadOn(s));
      var rest := ReadToEnd(t);
      evs := [ReadOn(s)] + rest;
      assert Run(s, [ReadOn(s)], 1) == Step(Run(s, [ReadOn(s)], 0), ReadOn(s)) == t;
      RunConcat(s, [ReadOn(s)], rest, |rest|);
    }
  }

  /** Whatever has happened, a reader that keeps reading while nothing is added comes to the end. */
  lemma {:induction false} PassCanComplete(s: Pass, evs: seq<Event>) returns (more: seq<Event>)
    requires Opened(s)
    ensures Quiet(more) && AtEnd(Run(s, evs + more, |evs + more|))
  {
    RunKeepsInv(s, evs, |evs|);
    more := ReadToEnd(Run(s, evs, |evs|));
    RunConcat(s, evs, more, |more|);
  }

  /** A pass that reached the end showed exactly as many entries as the log holds, whatever was written
      meanwhile; so the ids it never showed are exactly as many as the overwrites. */
  lemma {:induction false} CompletePassCount(s: Pass, evs: seq<Event>)
    requires Opened(s) && AtEnd(Run(s, evs, |evs|))
    ensures var t := Run(s, evs, |evs|);
      && |t.emitted| == |t.log.entries|
      && (t.log.nextId - 1) - |t.emitted| == t.overwrites
  {
    var t := Run(s, evs, |evs|);
    RunKeepsInv(s, evs, |evs|);
    LogHoldsLast(t.added, |t.added|);
  }

  ghost predicate Quiet(evs: seq<Event>) {
    forall k :: 0 <= k < |evs| ==> !evs[k].Add?
  }

  /** What the reader of `t` got so far is an initial part of the log `log`. */
  ghost predicate ShowsPrefix(log: LogState, t: Pass) {
    && t.log == log && |t.emitted| <= |log.entries|
    && forall k :: 0 <= k < |t.emitted| ==> t.emitted[k].entry == log.entries[k]
  }

  lemma {:induction false} QuietStep(log: LogState, t: Pass, ev: Event)
    requires CursorInv(t) && ShowsPrefix(log, t) && !ev.Add?
    ensures ShowsPrefix(log, Step(t, ev))
  {
  }

  lemma {:induction false} QuietRun(s: Pass, evs: seq<Event>, n: nat)
    requires Opened(s) && Quiet(evs) && n <= |evs|
    ensures ShowsPrefix(s.log, Run(s, evs, n))
  {
    if n == 0 {
    } else {
      QuietRun(s, evs, n - 1);
      RunKeepsInv(s, evs, n - 1);
      QuietStep(s.log, Run(s, evs, n - 1), evs[n - 1]);
    }
  }

  /** With no writes in between, a pass cut into any sessions shows each held entry once, in order. */
  lemma {:induction false} QuietPassShowsAll(s: Pass, evs: seq<Event>)
    requires Opened(s) && Quiet(evs) && AtEnd(Run(s, evs, |evs|))
    ensures var t := Run(s, evs, |evs|);
      && |t.emitted| == |s.log.entries|
      && forall k :: 0 <= k < |t.emitted| ==> t.emitted[k].entry == s.log.entries[k]
  {
    QuietRun(s, evs, |evs|);
    CompletePassCount(s, evs);
  }
}

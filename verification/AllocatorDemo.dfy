/** The test loops of the memory allocator demo, over an allocator that fails whenever it likes. */
module AllocatorDemo {

  const TEST_ITERATIONS: nat := 1000
  const LARGE_CHUNKS: nat := 10
  const SMALL_CHUNKS: nat := 100
  const MAX_CHUNKS: nat := 1000

  /** The pointer a request gets: the allocator's answer, if it is an address that is not in use; 0 (NULL)
      stands for a failed request. */
  function Granted(live: set<int>, answer: int): int {
    if answer in live then 0 else answer
  }

  function Added(live: set<int>, p: int): set<int> {
    if p == 0 then live else live + {p}
  }

  /** The addresses in use after the first `k` requests. */
  function LiveAfter(live: set<int>, answers: seq<int>, k: nat): set<int>
    requires k <= |answers|
  {
    if k == 0 then live
    else
      var before := LiveAfter(live, answers, k - 1);
      Added(before, Granted(before, answers[k - 1]))
  }

  /** The pointer that request `k` gets. */
  function Slot(live: set<int>, answers: seq<int>, k: nat): int
    requires k < |answers|
  {
    Granted(LiveAfter(live, answers, k), answers[k])
  }

  /** The pointers that the first `k` requests get. */
  function Slots(live: set<int>, answers: seq<int>, k: nat): (r: seq<int>)
    requires k <= |answers|
    ensures |r| == k
  {
    if k == 0 then [] else Slots(live, answers, k - 1) + [Slot(live, answers, k - 1)]
  }

  /** How many of the first `k` requests fail. */
  function Failures(live: set<int>, answers: seq<int>, k: nat): nat
    requires k <= |answers|
  {
    if k == 0 then 0 else Failures(live, answers, k - 1) + if Slot(live, answers, k - 1) == 0 then 1 else 0
  }

  ghost function Nulls(ptrs: seq<int>): set<int> {
    set i | 0 <= i < |ptrs| && ptrs[i] == 0
  }

  /** The count is that of the slots left NULL. */
  lemma {:induction false} FailuresCountNulls(live: set<int>, answers: seq<int>, k: nat)
    requires k <= |answers|
    ensures Failures(live, answers, k) == |Nulls(Slots(live, answers, k))|
  {
    if k == 0 {
    } else {
      FailuresCountNulls(live, answers, k - 1);
      var before, now := Nulls(Slots(live, answers, k - 1)), Nulls(Slots(live, answers, k));
      assert now == if Slot(live, answers, k - 1) == 0 then before + {k - 1} else before;
    }
  }

  /** What is in use after some requests: what was, and the pointers handed out. */
  lemma {:induction false} LiveIs(live: set<int>, answers: seq<int>, k: nat, x: int)
    requires k <= |answers|
    ensures x in LiveAfter(live, answers, k) <==> x in live || (x != 0 && x in Slots(live, answers, k))
  {
    if k == 0 {
    } else {
      LiveIs(live, answers, k - 1, x);
    }
  }

  lemma {:induction false} SlotsPrefix(live: set<int>, answers: seq<int>, i: nat, k: nat)
    requires i < k <= |answers|
    ensures Slots(live, answers, k)[i] == Slot(live, answers, i)
  {
    if k == i + 1 {
    } else {
      SlotsPrefix(live, answers, i, k - 1);
    }
  }

  /** A request gets the address the allocator answers with, unless that is NULL, was in use before, or was
      handed out to an earlier request; then it gets NULL. */
  lemma {:induction false} SlotMeaning(live: set<int>, answers: seq<int>, k: nat, i: nat)
    requires i < k <= |answers|
    ensures Slots(live, answers, k)[i]
         == if answers[i] in live || answers[i] in Slots(live, answers, i) then 0 else answers[i]
  {
    SlotsPrefix(live, answers, i, k);
    LiveIs(live, answers, i, answers[i]);
  }

  // ---------------------------------------------------------------- the history of an allocator

  datatype Event = Got(p: int) | Freed(p: int)

  /** From nothing in use, the history leads to `live`; it never hands out an address that is in use, and
      never frees one that is not. */
  ghost predicate Legal(history: seq<Event>, live: set<int>) {
    if history == [] then live == {}
    else
      var before := history[..|history| - 1];
      match history[|history| - 1]
      case Got(p) => p in live && Legal(before, live - {p})
      case Freed(p) => p !in live && Legal(before, live + {p})
  }

  /** How often `e` occurs. */
  function Times(history: seq<Event>, e: Event): nat {
    if history == [] then 0
    else Times(history[..|history| - 1], e) + if history[|history| - 1] == e then 1 else 0
  }

  function Step(p: int, e: Event): seq<Event> {
    if p == 0 then [] else [e]
  }

  /** Obtaining the non-null pointers of `ptrs` in order. */
  function Gots(ptrs: seq<int>): seq<Event> {
    if ptrs == [] then [] else Gots(ptrs[..|ptrs| - 1]) + Step(ptrs[|ptrs| - 1], Got(ptrs[|ptrs| - 1]))
  }

  /** Freeing the non-null pointers among the first `k`, in order. */
  function Frees(ptrs: seq<int>, k: nat): seq<Event>
    requires k <= |ptrs|
  {
    if k == 0 then [] else Frees(ptrs, k - 1) + Step(ptrs[k - 1], Freed(ptrs[k - 1]))
  }

  /** `live` without the first `k` pointers. */
  function Without(live: set<int>, ptrs: seq<int>, k: nat): set<int>
    requires k <= |ptrs|
  {
    if k == 0 then live else Without(live, ptrs, k - 1) - {ptrs[k - 1]}
  }

  /** The pointers at even, or at odd, indices; the others are NULL. */
  function Every(ptrs: seq<int>, parity: nat): (r: seq<int>)
    ensures |r| == |ptrs| && forall k: nat :: k < |r| ==> r[k] == if k % 2 == parity then ptrs[k] else 0
  {
    seq(|ptrs|, k requires 0 <= k < |ptrs| => if k % 2 == parity then ptrs[k] else 0)
  }

  /** `ptrs` with the even entries before `i` cleared. */
  function Punched(ptrs: seq<int>, i: nat): (r: seq<int>)
    ensures |r| == |ptrs| && forall k: nat :: k < |r| ==> r[k] == if k % 2 == 0 && k < i then 0 else ptrs[k]
  {
    seq(|ptrs|, k requires 0 <= k < |ptrs| => if k % 2 == 0 && k < i then 0 else ptrs[k])
  }

  lemma {:induction false} PunchedEnds(ptrs: seq<int>)
    ensures Punched(ptrs, 0) == ptrs && Punched(ptrs, |ptrs|) == Every(ptrs, 1)
  {
  }

  lemma {:induction false} TwoMore(i: nat)
    requires i % 2 == 0
    ensures (i + 2) % 2 == 0
  {
  }

  /** An even entry and the odd one after it. */
  lemma {:induction false} TwoSteps(ptrs: seq<int>, i: nat, live: set<int>)
    requires i % 2 == 0 && i + 1 < |ptrs| && 0 !in live
    ensures Frees(Every(ptrs, 0), i + 2) == Frees(Every(ptrs, 0), i) + Step(ptrs[i], Freed(ptrs[i]))
    ensures Without(live, Every(ptrs, 0), i + 2) == Without(live, Every(ptrs, 0), i) - {ptrs[i]}
    ensures Punched(ptrs, i)[i] == ptrs[i] && Punched(ptrs, i + 2) == Punched(ptrs, i)[i := 0]
    ensures ptrs[i] == 0 ==> Punched(ptrs, i + 2) == Punched(ptrs, i)
    ensures ptrs[i] == 0 ==> Without(live, Every(ptrs, 0), i + 2) == Without(live, Every(ptrs, 0), i)
  {
    NoNull(live, Every(ptrs, 0), i);
  }

  lemma {:induction false} NoNull(live: set<int>, ptrs: seq<int>, k: nat)
    requires 0 !in live && k <= |ptrs|
    ensures 0 !in Without(live, ptrs, k)
  {
    if k == 0 {
    } else {
      NoNull(live, ptrs, k - 1);
    }
  }

  lemma {:induction false} LegalMore(history: seq<Event>, live: set<int>, p: int)
    requires Legal(history, live)
    ensures p !in live ==> Legal(history + [Got(p)], live + {p})
    ensures p in live ==> Legal(history + [Freed(p)], live - {p})
  {
    assert (history + [Got(p)])[..|history|] == history == (history + [Freed(p)])[..|history|];
    if p in live {
      assert live - {p} + {p} == live;
    } else {
      assert live + {p} - {p} == live;
    }
  }

  /** In a legal history an address is freed as often as it is obtained, once less while it is in use. */
  lemma {:induction false} LegalBalance(history: seq<Event>, live: set<int>, p: int)
    requires Legal(history, live)
    ensures Times(history, Got(p)) == Times(history, Freed(p)) + if p in live then 1 else 0
  {
    if history == [] {
    } else {
      var before, q := history[..|history| - 1], history[|history| - 1].p;
      LegalBalance(before, if history[|history| - 1].Got? then live - {q} else live + {q}, p);
    }
  }

  lemma {:induction false} TimesConcat(a: seq<Event>, b: seq<Event>, e: Event)
    ensures Times(a + b, e) == Times(a, e) + Times(b, e)
  {
    if b == [] {
      assert a + b == a;
    } else {
      TimesConcat(a, b[..|b| - 1], e);
      assert (a + b)[..|a + b| - 1] == a + b[..|b| - 1];
    }
  }

  /** A stretch of a legal history that ends with the addresses in use with which it began frees every
      address exactly as often as it obtains it. */
  lemma {:induction false} EachFreedOnce(history: seq<Event>, more: seq<Event>, live: set<int>, p: int)
    requires Legal(history, live) && Legal(history + more, live)
    ensures Times(more, Got(p)) == Times(more, Freed(p))
  {
    LegalBalance(history, live, p);
    LegalBalance(history + more, live, p);
    TimesConcat(history, more, Got(p));
    TimesConcat(history, more, Freed(p));
  }

  // ---------------------------------------------------------------- pointers held in an array

  /** `live` is `base` and, besides, the non-null pointers of `ptrs`, all of them distinct. */
  ghost predicate Owns(base: set<int>, live: set<int>, ptrs: seq<int>) {
    if ptrs == [] then live == base
    else
      var before, p := ptrs[..|ptrs| - 1], ptrs[|ptrs| - 1];
      if p == 0 then Owns(base, live, before)
      else p in live && p !in base && Owns(base, live - {p}, before)
  }

  lemma {:induction false} OwnsBase(base: set<int>, live: set<int>, ptrs: seq<int>)
    requires Owns(base, live, ptrs)
    ensures base <= live
  {
    if ptrs == [] {
    } else {
      var p := ptrs[|ptrs| - 1];
      OwnsBase(base, if p == 0 then live else live - {p}, ptrs[..|ptrs| - 1]);
    }
  }

  lemma {:induction false} OwnsMore(base: set<int>, live: set<int>, ptrs: seq<int>, answer: int)
    requires Owns(base, live, ptrs)
    ensures Owns(base, Added(live, Granted(live, answer)), ptrs + [Granted(live, answer)])
  {
    var p := Granted(live, answer);
    OwnsBase(base, live, ptrs);
    assert (ptrs + [p])[..|ptrs|] == ptrs;
    assert p != 0 ==> live + {p} - {p} == live;
  }

  /** After the first |got| requests from `start`, with history `before`: `got` are the pointers obtained. */
  ghost predicate Filled(start: set<int>, before: seq<Event>, answers: seq<int>,
                         live: set<int>, history: seq<Event>, got: seq<int>)
  {
    && |got| <= |answers| && got == Slots(start, answers, |got|)
    && live == LiveAfter(start, answers, |got|)
    && history == before + Gots(got)
    && Owns(start, live, got)
  }

  lemma {:induction false} FilledMore(start: set<int>, before: seq<Event>, answers: seq<int>,
                                      live: set<int>, history: seq<Event>, got: seq<int>)
    requires Filled(start, before, answers, live, history, got) && |got| < |answers|
    ensures var p := Slot(start, answers, |got|);
      && p == Granted(live, answers[|got|])
      && Filled(start, before, answers, Added(live, p), history + Step(p, Got(p)), got + [p])
  {
    var p := Slot(start, answers, |got|);
    OwnsMore(start, live, got, answers[|got|]);
    assert (got + [p])[..|got|] == got;
  }

  /** Both sides may have one more address. */
  lemma {:induction false} OwnsWider(base: set<int>, live: set<int>, ptrs: seq<int>, q: int)
    requires Owns(base, live, ptrs) && q !in live
    ensures Owns(base + {q}, live + {q}, ptrs)
  {
    if ptrs == [] {
    } else {
      var p := ptrs[|ptrs| - 1];
      OwnsWider(base, if p == 0 then live else live - {p}, ptrs[..|ptrs| - 1], q);
      assert p != 0 ==> live + {q} - {p} == live - {p} + {q};
    }
  }

  /** A pointer that is held is in use, and freeing and clearing it keeps the account of the others. */
  lemma {:induction false} Dropped(base: set<int>, live: set<int>, ptrs: seq<int>, i: nat)
    requires Owns(base, live, ptrs) && i < |ptrs| && ptrs[i] != 0
    ensures ptrs[i] in live && ptrs[i] !in base && Owns(base, live - {ptrs[i]}, ptrs[i := 0])
  {
    var n, q := |ptrs| - 1, ptrs[i];
    var before, p := ptrs[..n], ptrs[n];
    if i == n {
      assert ptrs[i := 0][..n] == before;
    } else {
      assert ptrs[i := 0][..n] == before[i := 0];
      Dropped(base, if p == 0 then live else live - {p}, before, i);
      assert p != 0 ==> live - {p} - {q} == live - {q} - {p};
    }
  }

  lemma {:induction false} NoneHeld(base: set<int>, live: set<int>, ptrs: seq<int>)
    requires Owns(base, live, ptrs) && forall i: nat :: i < |ptrs| ==> ptrs[i] == 0
    ensures live == base
  {
    if ptrs == [] {
    } else {
      NoneHeld(base, live, ptrs[..|ptrs| - 1]);
    }
  }

  /** With two groups on top of `base`, what is left without the first group is `base` and the second. */
  lemma {:induction false} Regroup(base: set<int>, mid: set<int>, live: set<int>, first: seq<int>, second: seq<int>)
    returns (rest: set<int>)
    requires Owns(base, mid, first) && Owns(mid, live, second)
    ensures Owns(rest, live, first) && Owns(base, rest, second)
  {
    rest := base;
    if second == [] {
    } else {
      var p := second[|second| - 1];
      var before := if p == 0 then live else live - {p};
      rest := Regroup(base, mid, before, first, second[..|second| - 1]);
      if p != 0 {
        OwnsBase(base, mid, first);
        OwnsBase(rest, before, first);
        OwnsWider(rest, before, first, p);
        assert before + {p} == live && rest + {p} - {p} == rest;
        rest := rest + {p};
      }
    }
  }

  /** `ptrs` with the first `i` entries cleared. */
  function Cleared(ptrs: seq<int>, i: nat): (r: seq<int>)
    requires i <= |ptrs|
    ensures |r| == |ptrs| && forall k: nat :: k < |r| ==> r[k] == if k < i then 0 else ptrs[k]
  {
    seq(|ptrs|, k requires 0 <= k < |ptrs| => if k < i then 0 else ptrs[k])
  }

  /** Entry `i` may be freed, and then the entries up to it are done. */
  lemma {:induction false} ClearNext(base: set<int>, live: set<int>, ptrs: seq<int>, i: nat)
    requires i < |ptrs| && Owns(base, live, Cleared(ptrs, i))
    ensures ptrs[i] == 0 ==> Owns(base, live, Cleared(ptrs, i + 1))
    ensures ptrs[i] != 0 ==> ptrs[i] in live && Owns(base, live - {ptrs[i]}, Cleared(ptrs, i + 1))
  {
    var left := Cleared(ptrs, i);
    if ptrs[i] == 0 {
      assert Cleared(ptrs, i + 1) == left;
    } else {
      Dropped(base, live, left, i);
      assert Cleared(ptrs, i + 1) == left[i := 0];
    }
  }

  /** The first `i` pointers of `held` have been freed, since the history was `before`. */
  ghost predicate Emptied(base: set<int>, before: seq<Event>, held: seq<int>, i: nat,
                          live: set<int>, history: seq<Event>)
    requires i <= |held|
  {
    Owns(base, live, Cleared(held, i)) && history == before + Frees(held, i)
  }

  lemma {:induction false} EmptiedMore(base: set<int>, before: seq<Event>, held: seq<int>, i: nat,
                                       live: set<int>, history: seq<Event>)
    requires i < |held| && Emptied(base, before, held, i, live, history)
    ensures held[i] == 0 ==> Emptied(base, before, held, i + 1, live, history)
    ensures held[i] != 0 ==>
      held[i] in live && Emptied(base, before, held, i + 1, live - {held[i]}, history + [Freed(held[i])])
  {
    ClearNext(base, live, held, i);
  }

  /** The even pointers before `i` have been freed and cleared, since the state was `start` and `before`. */
  ghost predicate Holed(base: set<int>, start: set<int>, before: seq<Event>, all: seq<int>, i: nat,
                        live: set<int>, history: seq<Event>, ptrs: seq<int>)
    requires i <= |all|
  {
    && ptrs == Punched(all, i) && Owns(base, live, ptrs)
    && live == Without(start, Every(all, 0), i)
    && history == before + Frees(Every(all, 0), i)
  }

  lemma {:induction false} HoledMore(base: set<int>, start: set<int>, before: seq<Event>, all: seq<int>, i: nat,
                                     live: set<int>, history: seq<Event>, ptrs: seq<int>)
    requires i % 2 == 0 && i + 1 < |all| && 0 !in start && Holed(base, start, before, all, i, live, history, ptrs)
    ensures ptrs[i] == 0 ==> Holed(base, start, before, all, i + 2, live, history, ptrs)
    ensures ptrs[i] != 0 ==> ptrs[i] in live
    ensures ptrs[i] != 0 ==>
      Holed(base, start, before, all, i + 2, live - {ptrs[i]}, history + [Freed(ptrs[i])], ptrs[i := 0])
  {
    TwoSteps(all, i, start);
    if ptrs[i] != 0 {
      Dropped(base, live, ptrs, i);
    }
  }

  // ---------------------------------------------------------------- the allocator and the tests

  class Allocator {
    var live: set<int>
    ghost var history: seq<Event>

    ghost predicate Valid()
      reads this
    {
      0 !in live && Legal(history, live)
    }

    constructor ()
      ensures Valid() && live == {} && history == []
    {
      live, history := {}, [];
    }

    method Alloc(answer: int) returns (p: int)
      requires Valid()
      modifies this
      ensures Valid() && p == Granted(old(live), answer) && live == Added(old(live), p)
      ensures answer in old(live) || answer == 0 ==> p == 0 && live == old(live)
      ensures answer !in old(live) && answer != 0 ==> p == answer && live == old(live) + {answer}
      ensures history == old(history) + Step(p, Got(p))
    {
      p := if answer in live then 0 else answer;
      if p != 0 {
        LegalMore(history, live, p);
        live := live + {p};
        history := history + [Got(p)];
      }
    }

    /** Freeing an address that is not in use is an error, which every caller must exclude. */
    method Free(p: int)
      requires Valid() && p in live
      modifies this
      ensures Valid() && live == old(live) - {p} && history == old(history) + [Freed(p)]
    {
      LegalMore(history, live, p);
      live := live - {p};
      history := history + [Freed(p)];
    }

    /** One request, its pointer stored in the next slot. */
    method FillSlot(ptrs: array<int>, i: nat, answers: seq<int>, ghost start: set<int>, ghost before: seq<Event>)
      requires Valid() && i < ptrs.Length == |answers| && Filled(start, before, answers, live, history, ptrs[..i])
      modifies this, ptrs
      ensures Valid() && ptrs[i] == Slot(start, answers, i) && ptrs[..i] == old(ptrs[..i])
      ensures Filled(start, before, answers, live, history, ptrs[..i + 1])
      ensures ptrs[i] == 0 ==> live == old(live) && history == old(history)
    {
      FilledMore(start, before, answers, live, history, ptrs[..i]);
      var p := Alloc(answers[i]);
      ptrs[i] := p;
      assert ptrs[..i + 1] == old(ptrs[..i]) + [p];
    }

    /** One request per slot; a failed one leaves NULL. */
    method Fill(ptrs: array<int>, answers: seq<int>) returns (failures: nat)
      requires Valid() && |answers| == ptrs.Length
      modifies this, ptrs
      ensures Valid() && Filled(old(live), old(history), answers, live, history, ptrs[..])
      ensures failures == Failures(old(live), answers, |answers|)
    {
      var i := 0;
      failures := 0;
      while i < ptrs.Length
        invariant 0 <= i <= ptrs.Length && Valid()
        invariant Filled(old(live), old(history), answers, live, history, ptrs[..i])
        invariant failures == Failures(old(live), answers, i)
      {
        FillSlot(ptrs, i, answers, old(live), old(history));
        if ptrs[i] == 0 {
          failures := failures + 1;
        }
        i := i + 1;
      }
      assert ptrs[..i] == ptrs[..];
    }

    /** Frees each of the first `n` pointers that is not NULL. */
    method FreeAll(ptrs: array<int>, n: nat, ghost base: set<int>)
      requires Valid() && n <= ptrs.Length && Owns(base, live, ptrs[..n])
      modifies this
      ensures Valid() && live == base && history == old(history) + Frees(ptrs[..n], n)
    {
      var i := 0;
      ghost var held := ptrs[..n];
      assert Cleared(held, 0) == held;
      while i < n
        invariant 0 <= i <= n && Valid() && Emptied(base, old(history), held, i, live, history)
      {
        EmptiedMore(base, old(history), held, i, live, history);
        if ptrs[i] != 0 {
          Free(ptrs[i]);
        }
        i := i + 1;
      }
      NoneHeld(base, live, Cleared(held, n));
    }

    /** Frees the pointer at an even index and sets it to NULL. */
    method FreeEven(ptrs: array<int>, i: nat, ghost base: set<int>,
                    ghost start: set<int>, ghost before: seq<Event>, ghost all: seq<int>)
      requires Valid() && i % 2 == 0 && i + 1 < ptrs.Length == |all| && 0 !in start
      requires Holed(base, start, before, all, i, live, history, ptrs[..])
      modifies this, ptrs
      ensures Valid() && Holed(base, start, before, all, i + 2, live, history, ptrs[..])
    {
      ghost var now := ptrs[..];
      HoledMore(base, start, before, all, i, live, history, now);
      if ptrs[i] != 0 {
        Free(ptrs[i]);
        ptrs[i] := 0;
        assert ptrs[..] == now[i := 0];
      }
    }

    /** Frees every other pointer and sets it to NULL, so that it is not freed again. */
    method FreeEveryOther(ptrs: array<int>, ghost base: set<int>)
      requires Valid() && Owns(base, live, ptrs[..]) && ptrs.Length % 2 == 0
      modifies this, ptrs
      ensures Valid() && ptrs[..] == Every(old(ptrs[..]), 1)
      ensures Holed(base, old(live), old(history), old(ptrs[..]), ptrs.Length, live, history, ptrs[..])
    {
      var i := 0;
      ghost var all := ptrs[..];
      PunchedEnds(all);
      while i < ptrs.Length
        invariant 0 <= i <= ptrs.Length && i % 2 == 0 && Valid()
        invariant Holed(base, old(live), old(history), all, i, live, history, ptrs[..])
      {
        FreeEven(ptrs, i, base, old(live), old(history), all);
        TwoMore(i);
        i := i + 2;
      }
    }

    /** The three performance tests: the failure count is exact, every pointer obtained is freed, in order,
        and nothing stays allocated. */
    method TestPerformance(answers: seq<int>) returns (failures: nat)
      requires Valid() && |answers| == TEST_ITERATIONS
      modifies this
      ensures Valid() && live == old(live)
      ensures var got := Slots(old(live), answers, TEST_ITERATIONS);
        history == old(history) + Gots(got) + Frees(got, |got|)
      ensures failures == Failures(old(live), answers, TEST_ITERATIONS)
    {
      var ptrs := new int[TEST_ITERATIONS];
      failures := Fill(ptrs, answers);
      assert ptrs[..] == ptrs[..ptrs.Length];
      FreeAll(ptrs, ptrs.Length, old(live));
    }

    /** The fragmentation test: chunks freed early are not freed again, and nothing stays allocated. */
    method TestFragmentation(large: seq<int>, small: seq<int>)
      requires Valid() && |large| == LARGE_CHUNKS && |small| == SMALL_CHUNKS
      modifies this
      ensures Valid() && live == old(live)
      ensures var l := Slots(old(live), large, |large|);
        var s := Slots(Without(LiveAfter(old(live), large, |large|), Every(l, 0), |l|), small, |small|);
        history == old(history) + Gots(l) + Frees(Every(l, 0), |l|) + Gots(s) + Frees(Every(l, 1), |l|) + Frees(s, |s|)
    {
      var largePtrs := new int[LARGE_CHUNKS];
      var smallPtrs := new int[SMALL_CHUNKS];
      var _ := Fill(largePtrs, large);
      FreeEveryOther(largePtrs, old(live));
      ghost var mid := live;
      var _ := Fill(smallPtrs, small);
      ghost var rest := Regroup(old(live), mid, live, largePtrs[..], smallPtrs[..]);
      assert largePtrs[..] == largePtrs[..largePtrs.Length] && smallPtrs[..] == smallPtrs[..smallPtrs.Length];
      FreeAll(largePtrs, largePtrs.Length, rest);
      FreeAll(smallPtrs, smallPtrs.Length, old(live));
    }

    /** Requests until the first failure. */
    method FillUntilFailure(ptrs: array<int>, answers: seq<int>) returns (chunks: nat)
      requires Valid() && |answers| == ptrs.Length
      modifies this, ptrs
      ensures Valid() && chunks <= ptrs.Length && Failures(old(live), answers, chunks) == 0
      ensures chunks < ptrs.Length ==> Slot(old(live), answers, chunks) == 0
      ensures Filled(old(live), old(history), answers, live, history, ptrs[..chunks])
    {
      chunks := 0;
      var i := 0;
      while i < ptrs.Length
        invariant chunks == i <= ptrs.Length && Valid() && Failures(old(live), answers, i) == 0
        invariant Filled(old(live), old(history), answers, live, history, ptrs[..i])
      {
        FillSlot(ptrs, i, answers, old(live), old(history));
        if ptrs[i] != 0 {
          chunks := chunks + 1;
        } else {
          break;
        }
        i := i + 1;
      }
    }

    /** The failure test: the number reported is how many requests succeed before the first failure, and
        nothing stays allocated. */
    method TestAllocationFailures(answers: seq<int>) returns (chunks: nat)
      requires Valid() && |answers| == MAX_CHUNKS
      modifies this
      ensures Valid() && live == old(live)
      ensures chunks <= MAX_CHUNKS && Failures(old(live), answers, chunks) == 0
      ensures chunks < MAX_CHUNKS ==> Slot(old(live), answers, chunks) == 0
      ensures var got := Slots(old(live), answers, chunks);
        history == old(history) + Gots(got) + Frees(got, |got|)
    {
      var ptrs := new int[MAX_CHUNKS];
      chunks := FillUntilFailure(ptrs, answers);
      FreeAll(ptrs, chunks, old(live));
    }
  }
}

/** Counting the elements of a sequence that have a property, and summing over a sequence. */
module Counting {

  function One(b: bool): nat {
    if b then 1 else 0
  }

  /** How many of the first `k` elements satisfy `f`. */
  function CountIf<T>(f: T -> bool, s: seq<T>, k: nat): nat
    requires k <= |s|
  {
    if k == 0 then 0 else CountIf(f, s, k - 1) + One(f(s[k - 1]))
  }

  /** Changing one element changes the count by what that element contributes. */
  lemma {:induction false} CountAfterUpdate<T>(f: T -> bool, s: seq<T>, p: nat, x: T, k: nat)
    requires p < |s| && k <= |s|
    ensures CountIf(f, s[p := x], k) == CountIf(f, s, k) + if p < k then One(f(x)) - One(f(s[p])) else 0
  {
    if k == 0 {
    } else {
      CountAfterUpdate(f, s, p, x, k - 1);
    }
  }

  lemma {:induction false} CountPrefix<T>(f: T -> bool, s: seq<T>, x: T, k: nat)
    requires k <= |s|
    ensures CountIf(f, s + [x], k) == CountIf(f, s, k)
  {
    if k == 0 {
    } else {
      CountPrefix(f, s, x, k - 1);
    }
  }

  lemma {:induction false} CountNone<T>(f: T -> bool, s: seq<T>, k: nat)
    requires k <= |s| && forall i: nat :: i < k ==> !f(s[i])
    ensures CountIf(f, s, k) == 0
  {
    if k == 0 {
    } else {
      CountNone(f, s, k - 1);
    }
  }

  /** A stronger property counts no more elements; strictly fewer if one has only the weaker property. */
  lemma {:induction false} CountStronger<T>(f: T -> bool, g: T -> bool, s: seq<T>, k: nat)
    requires k <= |s| && forall i: nat :: i < k ==> f(s[i]) ==> g(s[i])
    ensures CountIf(f, s, k) <= CountIf(g, s, k)
    ensures forall p: nat :: p < k && g(s[p]) && !f(s[p]) ==> CountIf(f, s, k) < CountIf(g, s, k)
  {
    if k == 0 {
    } else {
      CountStronger(f, g, s, k - 1);
    }
  }

  /** The sum of `f` over the first `k` elements. */
  function Sum<T>(f: T -> int, s: seq<T>, k: nat): int
    requires k <= |s|
  {
    if k == 0 then 0 else Sum(f, s, k - 1) + f(s[k - 1])
  }

  lemma {:induction false} SumAfterUpdate<T>(f: T -> int, s: seq<T>, p: nat, x: T, k: nat)
    requires p < |s| && k <= |s|
    ensures Sum(f, s[p := x], k) == Sum(f, s, k) + if p < k then f(x) - f(s[p]) else 0
  {
    if k == 0 {
    } else {
      SumAfterUpdate(f, s, p, x, k - 1);
    }
  }

  lemma {:induction false} SumPrefix<T>(f: T -> int, s: seq<T>, x: T, k: nat)
    requires k <= |s|
    ensures Sum(f, s + [x], k) == Sum(f, s, k)
  {
    if k == 0 {
    } else {
      SumPrefix(f, s, x, k - 1);
    }
  }

  lemma {:induction false} SumZero<T>(f: T -> int, s: seq<T>, k: nat)
    requires k <= |s| && forall i: nat :: i < k ==> f(s[i]) == 0
    ensures Sum(f, s, k) == 0
  {
    if k == 0 {
    } else {
      SumZero(f, s, k - 1);
    }
  }
}

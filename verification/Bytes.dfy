/** Byte strings, the overwriting of a range, and lists of overwrites applied in order.

    A `Patch` is one memory copy into a buffer. `Newest` is the reference reading of a
    list of patches: a byte of the result belongs to the last patch that covers it. */
module Bytes {

  type Byte = x: int | 0 <= x < 256

  const TWO_64: nat := 0x1_0000_0000_0000_0000

  /** `unsigned long` arithmetic. */
  function Wrap64(x: nat): (r: nat)
    ensures x < TWO_64 ==> r == x
  {
    x % TWO_64
  }

  /** `s` with the bytes `b` written over it at offset `at`. */
  function Splice(s: seq<Byte>, at: nat, b: seq<Byte>): (r: seq<Byte>)
    requires at + |b| <= |s|
    ensures |r| == |s|
    ensures forall i {:trigger r[i]} :: 0 <= i < |s| ==> r[i] == if at <= i < at + |b| then b[i - at] else s[i]
  {
    s[..at] + b + s[at + |b|..]
  }

  /** Two adjacent overwrites are one. */
  lemma {:induction false} SpliceSplice(s: seq<Byte>, at: nat, a: seq<Byte>, b: seq<Byte>)
    requires at + |a| + |b| <= |s|
    ensures Splice(Splice(s, at, a), at + |a|, b) == Splice(s, at, a + b)
  {
  }

  /** One overwrite; it is dropped as a whole when it does not fit. */
  datatype Patch = Patch(at: nat, bytes: seq<Byte>)

  function Apply(s: seq<Byte>, p: Patch): (r: seq<Byte>)
    ensures |r| == |s|
  {
    if p.at + |p.bytes| <= |s| then Splice(s, p.at, p.bytes) else s
  }

  lemma {:induction false} ApplyNothing(s: seq<Byte>, at: nat)
    ensures Apply(s, Patch(at, [])) == s
  {
  }

  function ApplyAll(s: seq<Byte>, ps: seq<Patch>): (r: seq<Byte>)
    ensures |r| == |s|
  {
    if ps == [] then s else Apply(ApplyAll(s, ps[..|ps| - 1]), ps[|ps| - 1])
  }

  predicate Covers(n: nat, p: Patch, i: nat) {
    p.at + |p.bytes| <= n && p.at <= i < p.at + |p.bytes|
  }

  /** Reference reading of a list of overwrites: byte `i` of a buffer of `n` bytes belongs to the
      last patch that covers it, and is `original` when none does. */
  function Newest(n: nat, ps: seq<Patch>, i: nat, original: Byte): Byte {
    if ps == [] then original
    else
      var p := ps[|ps| - 1];
      if Covers(n, p, i) then p.bytes[i - p.at] else Newest(n, ps[..|ps| - 1], i, original)
  }

  lemma {:induction false} ApplyAllSnoc(s: seq<Byte>, ps: seq<Patch>, p: Patch)
    ensures ApplyAll(s, ps + [p]) == Apply(ApplyAll(s, ps), p)
  {
    assert (ps + [p])[..|ps|] == ps;
  }

  lemma {:induction false} ApplyAllConcat(s: seq<Byte>, ps: seq<Patch>, qs: seq<Patch>)
    ensures ApplyAll(s, ps + qs) == ApplyAll(ApplyAll(s, ps), qs)
    decreases |qs|
  {
    if qs == [] {
      assert ps + qs == ps;
    } else {
      assert (ps + qs)[..|ps + qs| - 1] == ps + qs[..|qs| - 1];
      ApplyAllConcat(s, ps, qs[..|qs| - 1]);
    }
  }

  /** Overwriting the whole buffer in order agrees with looking up the newest write of each byte. */
  lemma {:induction false} ApplyAllIsNewest(s: seq<Byte>, ps: seq<Patch>, i: nat)
    requires i < |s|
    ensures ApplyAll(s, ps)[i] == Newest(|s|, ps, i, s[i])
  {
    if ps == [] {
    } else {
      ApplyAllIsNewest(s, ps[..|ps| - 1], i);
    }
  }

  /** The newest write is the covering patch that no later patch covers. */
  lemma {:induction false} NewestIsLastCover(n: nat, ps: seq<Patch>, i: nat, original: Byte, j: nat)
    requires j < |ps| && Covers(n, ps[j], i)
    requires forall k :: j < k < |ps| ==> !Covers(n, ps[k], i)
    ensures Newest(n, ps, i, original) == ps[j].bytes[i - ps[j].at]
  {
    if j < |ps| - 1 {
      assert !Covers(n, ps[|ps| - 1], i);
      NewestIsLastCover(n, ps[..|ps| - 1], i, original, j);
    }
  }

  /** `memcpy` between two different buffers. */
  method CopyBytes(dst: array<Byte>, d: nat, src: array<Byte>, s: nat, n: nat)
    requires dst != src
    requires d + n <= dst.Length && s + n <= src.Length
    modifies dst
    ensures dst[..] == Splice(old(dst[..]), d, src[s..s + n])
  {
    forall i | 0 <= i < n {
      dst[d + i] := src[s + i];
    }
  }
}

/** What reads, writes, loads and stores do to single bytes of the shared buffer. */
module VmaBytes {
  import opened Bytes
  import opened VmaDevice

  function Min(a: int, b: int): int {
    if a <= b then a else b
  }

  /** Operation `op` puts a byte at offset `k`: a write over it, or a store to an address that maps it. */
  predicate Touches(areas: seq<Area>, op: Op, k: nat) {
    match op
    case WriteOp(pos, data, interrupted, _) => !interrupted && pos <= k < Min(pos + |data|, 16384)
    case StoreOp(i, address, _) =>
      i < |areas| && k < 16384 && address - areas[i].start + areas[i].pgoff * 4096 == k
    case _ => false
  }

  /** The byte it puts there. A faulting write puts what landed. */
  function ByteAt(areas: seq<Area>, op: Op, k: nat): Byte
    requires OpOk(areas, op) && Touches(areas, op, k)
  {
    match op
    case WriteOp(pos, data, _, copy) => if copy.Fault? then copy.landed[k - pos] else data[k - pos]
    case StoreOp(_, _, b) => b
  }

  // ---------------------------------------------------------------- one operation

  /** An operation puts its bytes where the user asked for them. */
  lemma {:induction false} TouchedByte(s: Flat, op: Op, k: nat)
    requires |s.content| == 16384 && OpOk(s.areas, op) && Touches(s.areas, op, k)
    ensures k < 16384 && FlatStep(s, op).content[k] == ByteAt(s.areas, op, k)
  {
    ApplyOne(s.content, OpWrites(s.areas, op)[0]);
    assert OpWrites(s.areas, op) == [OpWrites(s.areas, op)[0]];
  }

  /** It changes no other byte. */
  lemma {:induction false} UntouchedByte(s: Flat, op: Op, k: nat)
    requires |s.content| == 16384 && OpOk(s.areas, op) && k < 16384 && !Touches(s.areas, op, k)
    ensures FlatStep(s, op).content[k] == s.content[k]
  {
    var ps := OpWrites(s.areas, op);
    if ps != [] {
      ApplyOne(s.content, ps[0]);
      assert ps == [ps[0]];
    }
  }

  /** A write returns how many bytes fit, or the error that left the buffer alone or partly written. */
  lemma {:induction false} WriteReturns(s: Flat, pos: nat, data: seq<Byte>, interrupted: bool, copy: Copy)
    requires |s.content| == 16384 && OpOk(s.areas, WriteOp(pos, data, interrupted, copy))
    ensures var r := FlatResult(s, WriteOp(pos, data, interrupted, copy));
      && (interrupted ==> r == Failed(ERESTARTSYS))
      && (!interrupted && pos >= 16384 ==> r == Failed(ENOSPC))
      && (!interrupted && pos < 16384 && copy.Fault? ==> r == Failed(EFAULT))
      && (!interrupted && pos < 16384 && copy.Full? ==> r == Done(Min(|data|, 16384 - pos)))
  {
  }

  /** A read returns as many bytes as there are, from the position asked for. */
  lemma {:induction false} ReadReturns(s: Flat, pos: nat, count: nat, interrupted: bool, faulted: bool)
    requires |s.content| == 16384
    ensures var r := FlatResult(s, ReadOp(pos, count, interrupted, faulted));
      && (interrupted ==> r == Failed(ERESTARTSYS))
      && (!interrupted && pos >= 16384 ==> r == Bytes([]))
      && (!interrupted && pos < 16384 && faulted ==> r == Failed(EFAULT))
      && (!interrupted && pos < 16384 && !faulted ==>
            && r.Bytes? && |r.data| == Min(count, 16384 - pos)
            && forall x :: 0 <= x < |r.data| ==> r.data[x] == s.content[pos + x])
  {
  }

  /** A load returns the byte of the file offset of its address, and faults past the buffer. */
  lemma {:induction false} LoadReturns(s: Flat, i: nat, address: nat)
    requires |s.content| == 16384 && OpOk(s.areas, LoadOp(i, address))
    ensures var k := address - s.areas[i].start + s.areas[i].pgoff * 4096;
      && 0 <= k
      && FlatResult(s, LoadOp(i, address)) == if k < 16384 then Loaded(s.content[k]) else Sigbus
  {
  }

  /** A mapping of at most the buffer's size is admitted, whatever its page offset; no other is. */
  lemma {:induction false} MmapReturns(s: Flat, v: Area)
    requires |s.content| == 16384 && OpOk(s.areas, MmapOp(v))
    ensures v.end - v.start <= 16384 ==>
      FlatResult(s, MmapOp(v)) == Done(0) && FlatStep(s, MmapOp(v)) == Flat(s.content, s.areas + [v])
    ensures v.end - v.start > 16384 ==> FlatResult(s, MmapOp(v)) == Failed(EINVAL) && FlatStep(s, MmapOp(v)) == s
  {
  }

  // ---------------------------------------------------------------- whole runs

  /** Operation `n` of the run puts no byte at offset `k`. */
  ghost predicate Leaves(s: Flat, ops: seq<Op>, n: nat, k: nat)
    requires |s.content| == 16384 && n < |ops|
  {
    !Touches(FlatAfter(s, ops, n).areas, ops[n], k)
  }

  lemma {:induction false} OneOpLeaves(s: Flat, ops: seq<Op>, n: nat, k: nat)
    requires |s.content| == 16384 && n < |ops| && k < 16384 && Leaves(s, ops, n, k)
    ensures FlatAfter(s, ops, n + 1).content[k] == FlatAfter(s, ops, n).content[k]
  {
    var t := FlatAfter(s, ops, n);
    if OpOk(t.areas, ops[n]) {
      UntouchedByte(t, ops[n], k);
    }
  }

  lemma {:induction false} StaysUntouched(s: Flat, ops: seq<Op>, m: nat, n: nat, k: nat)
    requires |s.content| == 16384 && m <= n <= |ops| && k < 16384
    requires forall j: nat :: m <= j < n ==> Leaves(s, ops, j, k)
    ensures FlatAfter(s, ops, n).content[k] == FlatAfter(s, ops, m).content[k]
    decreases n
  {
    if m == n {
    } else {
      StaysUntouched(s, ops, m, n - 1, k);
      assert Leaves(s, ops, n - 1, k);
      OneOpLeaves(s, ops, n - 1, k);
    }
  }

  /** Operation `j` of the run is the last one that puts a byte at offset `k`. */
  ghost predicate LastTouch(s: Flat, ops: seq<Op>, j: nat, k: nat)
    requires |s.content| == 16384
  {
    && j < |ops| && Issuable(s, ops, j) && Touches(FlatAfter(s, ops, j).areas, ops[j], k)
    && forall n: nat :: j < n < |ops| ==> Leaves(s, ops, n, k)
  }

  /** After any run, a byte is the one that the last operation on its offset put there, by whichever path. */
  lemma {:induction false} LastTouchWins(s: Flat, ops: seq<Op>, j: nat, k: nat)
    requires |s.content| == 16384 && LastTouch(s, ops, j, k)
    ensures k < 16384
    ensures FlatAfter(s, ops, |ops|).content[k] == ByteAt(FlatAfter(s, ops, j).areas, ops[j], k)
  {
    TouchedByte(FlatAfter(s, ops, j), ops[j], k);
    StaysUntouched(s, ops, j + 1, |ops|, k);
  }

  /** Round trip by `read`: after any run it returns the bytes last put at its offsets. */
  lemma {:induction false} ReadReturnsLast(s: Flat, ops: seq<Op>, j: nat, pos: nat, count: nat, x: nat)
    requires |s.content| == 16384 && pos < 16384 && x < Min(count, 16384 - pos) && LastTouch(s, ops, j, pos + x)
    ensures var r := FlatResult(FlatAfter(s, ops, |ops|), ReadOp(pos, count, false, false));
      r.Bytes? && x < |r.data| && r.data[x] == ByteAt(FlatAfter(s, ops, j).areas, ops[j], pos + x)
  {
    LastTouchWins(s, ops, j, pos + x);
    ReadReturns(FlatAfter(s, ops, |ops|), pos, count, false, false);
  }

  /** Round trip by mapping: after any run a load returns the byte last put at its offset. */
  lemma {:induction false} LoadReturnsLast(s: Flat, ops: seq<Op>, j: nat, i: nat, address: nat, k: nat)
    requires |s.content| == 16384 && OpOk(FlatAfter(s, ops, |ops|).areas, LoadOp(i, address))
    requires var v := FlatAfter(s, ops, |ops|).areas[i];
      k == address - v.start + v.pgoff * 4096
    requires LastTouch(s, ops, j, k)
    ensures FlatResult(FlatAfter(s, ops, |ops|), LoadOp(i, address))
         == Loaded(ByteAt(FlatAfter(s, ops, j).areas, ops[j], k))
  {
    LastTouchWins(s, ops, j, k);
    LoadReturns(FlatAfter(s, ops, |ops|), i, address);
  }

  /** An offset that no operation of the run touches still has the byte that init put there. */
  lemma {:induction false} UntouchedSinceInit(ops: seq<Op>, k: nat)
    requires k < 16384
    requires forall n: nat :: n < |ops| ==> |InitialContent()| == 16384 && Leaves(Flat(InitialContent(), []), ops, n, k)
    ensures |InitialContent()| == 16384
    ensures FlatAfter(Flat(InitialContent(), []), ops, |ops|).content[k]
         == if k < 31 then GREETING[k] else if k == 31 then 0 else 0x42
  {
    assert |InitialContent()| == 16384;
    StaysUntouched(Flat(InitialContent(), []), ops, 0, |ops|, k);
  }
}

/** What the block device does to single bytes, said of requests, bios and segments themselves.

    Bios here are as the block layer builds them: segments of whole sectors, ending inside the device. */
module BlockBytes {
  import opened Bytes
  import opened BlockDevice

  /** The device offset of segment `k`; of the end, for `k` the number of segments. */
  function Place(bio: Bio, k: nat): nat
    requires k <= |bio.segs|
  {
    bio.sector * 512 + TotalLength(bio, k)
  }

  ghost predicate Proper(size: nat, ramSize: nat, bio: Bio) {
    && (forall k :: 0 <= k < |bio.segs| ==> bio.segs[k].len % 512 == 0)
    && (forall k :: 0 <= k < |bio.segs| ==> bio.segs[k].addr + bio.segs[k].len <= ramSize)
    && Place(bio, |bio.segs|) <= size
  }

  predicate Covers(bio: Bio, i: nat) {
    bio.sector * 512 <= i < Place(bio, |bio.segs|)
  }

  predicate Inside(seg: Segment, a: nat) {
    seg.addr <= a < seg.addr + seg.len
  }

  /** No address lies in two segments. */
  ghost predicate Separate(bio: Bio) {
    forall j, k, a: nat :: 0 <= j < k < |bio.segs| && Inside(bio.segs[j], a) ==> !Inside(bio.segs[k], a)
  }

  // ---------------------------------------------------------------- one bio

  lemma {:induction false} PlaceMonotone(bio: Bio, j: nat, k: nat)
    requires j <= k <= |bio.segs|
    ensures Place(bio, j) <= Place(bio, k)
    decreases k
  {
    if j == k {
    } else {
      PlaceMonotone(bio, j, k - 1);
    }
  }

  lemma {:induction false} ExtentFits(size: nat, ramSize: nat, bio: Bio, k: nat)
    requires Proper(size, ramSize, bio) && k <= |bio.segs|
    ensures InMemory(ramSize, ExtentOf(bio)) && Offset(ExtentOf(bio), k) == Place(bio, k)
    ensures Fit(size, ExtentOf(bio)) == |bio.segs| && End(ExtentOf(bio)) == Place(bio, |bio.segs|)
  {
    MovesEverythingIffAligned(bio, k);
    MovesEverythingIffAligned(bio, |bio.segs|);
  }

  /** A segment is moved from or to its own address, up to its last whole sector. */
  lemma {:induction false} PartIsSegment(bio: Bio, k: nat)
    requires k < |bio.segs|
    ensures ExtentOf(bio).at == bio.sector * 512 && |ExtentOf(bio).parts| == |bio.segs|
    ensures ExtentOf(bio).parts[k] == Part(bio.segs[k].addr, bio.segs[k].len - bio.segs[k].len % 512)
  {
  }

  /** The state after one bio. */
  ghost function BioAfter(s: State, bio: Bio, dir: Direction): (r: State)
    requires Proper(|s.disk|, |s.ram|, bio)
    ensures |r.disk| == |s.disk| && |r.ram| == |s.ram|
  {
    ExtentFits(|s.disk|, |s.ram|, bio, 0);
    BioSpec(s, ExtentOf(bio), dir, |bio.segs|)
  }

  lemma {:induction false} SegmentInside(size: nat, ramSize: nat, bio: Bio, k: nat)
    requires Proper(size, ramSize, bio) && k < |bio.segs|
    ensures Place(bio, k) + bio.segs[k].len <= size && bio.segs[k].addr + bio.segs[k].len <= ramSize
  {
    PlaceMonotone(bio, k + 1, |bio.segs|);
  }

  lemma {:induction false} PayloadAt(ram: seq<Byte>, e: Extent, m: nat, k: nat, x: nat)
    requires InMemory(|ram|, e) && k < m <= |e.parts| && x < e.parts[k].n
    ensures Offset(e, k) - e.at + x < |Payload(ram, e, m)|
    ensures Payload(ram, e, m)[Offset(e, k) - e.at + x] == ram[e.parts[k].addr + x]
  {
    if m == k + 1 {
      assert PartBytes(ram, e.parts[k])[x] == ram[e.parts[k].addr + x];
    } else {
      PayloadAt(ram, e, m - 1, k, x);
      assert Payload(ram, e, m)[..|Payload(ram, e, m - 1)|] == Payload(ram, e, m - 1);
    }
  }

  lemma {:induction false} WritePartByte(s: State, e: Extent, k: nat, x: nat)
    requires InMemory(|s.ram|, e) && k < |e.parts| == Fit(|s.disk|, e) && x < e.parts[k].n
    ensures Offset(e, k) + x < |s.disk|
    ensures BioSpec(s, e, Write, |e.parts|).disk[Offset(e, k) + x] == s.ram[e.parts[k].addr + x]
  {
    WriteBioIsOneOverwrite(s, e);
    PayloadAt(s.ram, e, |e.parts|, k, x);
  }

  /** A write bio puts byte `x` of segment `k`, taken from that segment's own address, at its place. */
  lemma {:induction false} WriteBioBytes(s: State, bio: Bio, k: nat, x: nat)
    requires Proper(|s.disk|, |s.ram|, bio) && k < |bio.segs| && x < bio.segs[k].len
    ensures Place(bio, k) + x < |s.disk| && bio.segs[k].addr + x < |s.ram|
    ensures BioAfter(s, bio, Write).disk[Place(bio, k) + x] == s.ram[bio.segs[k].addr + x]
  {
    var e := ExtentOf(bio);
    SegmentInside(|s.disk|, |s.ram|, bio, k);
    ExtentFits(|s.disk|, |s.ram|, bio, k);
    assert e.parts[k] == Part(bio.segs[k].addr, bio.segs[k].len) by {
      PartIsSegment(bio, k);
    }
    assert BioSpec(s, e, Write, |e.parts|).disk[Offset(e, k) + x] == s.ram[bio.segs[k].addr + x] by {
      WritePartByte(s, e, k, x);
    }
  }

  /** A write bio changes no memory. */
  lemma {:induction false} WriteBioKeepsMemory(s: State, bio: Bio)
    requires Proper(|s.disk|, |s.ram|, bio)
    ensures BioAfter(s, bio, Write).ram == s.ram
  {
    ExtentFits(|s.disk|, |s.ram|, bio, 0);
    WriteBioIsOneOverwrite(s, ExtentOf(bio));
  }

  /** A write bio changes no device byte outside its range. */
  lemma {:induction false} WriteBioElsewhere(s: State, bio: Bio, i: nat)
    requires Proper(|s.disk|, |s.ram|, bio) && i < |s.disk| && !Covers(bio, i)
    ensures BioAfter(s, bio, Write).disk[i] == s.disk[i]
  {
    ExtentFits(|s.disk|, |s.ram|, bio, |bio.segs|);
    WriteBioIsOneOverwrite(s, ExtentOf(bio));
  }

  lemma {:induction false} SeparateParts(bio: Bio)
    requires Separate(bio)
    ensures Disjoint(ExtentOf(bio))
  {
    var e := ExtentOf(bio);
    forall i, j, a: nat | 0 <= i < j < |e.parts| && Holds(e.parts[i], a)
      ensures !Holds(e.parts[j], a)
    {
      assert Inside(bio.segs[i], a) ==> !Inside(bio.segs[j], a);
    }
  }

  lemma {:induction false} ReadPartByte(s: State, e: Extent, k: nat, x: nat)
    requires InMemory(|s.ram|, e) && Disjoint(e) && k < Fit(|s.disk|, e) && x < e.parts[k].n
    ensures Offset(e, k) + x < |s.disk|
    ensures BioSpec(s, e, Read, |e.parts|).ram[e.parts[k].addr + x] == s.disk[Offset(e, k) + x]
  {
    ReadPart(s, e, k);
    var r := BioSpec(s, e, Read, |e.parts|).ram;
    assert PartBytes(r, e.parts[k])[x] == r[e.parts[k].addr + x];
    assert s.disk[Offset(e, k)..Offset(e, k + 1)][x] == s.disk[Offset(e, k) + x];
  }

  /** A read bio with separate segments puts the device byte of that place at byte `x` of segment `k`. */
  lemma {:induction false} ReadBioBytes(s: State, bio: Bio, k: nat, x: nat)
    requires Proper(|s.disk|, |s.ram|, bio) && Separate(bio) && k < |bio.segs| && x < bio.segs[k].len
    ensures Place(bio, k) + x < |s.disk| && bio.segs[k].addr + x < |s.ram|
    ensures BioAfter(s, bio, Read).ram[bio.segs[k].addr + x] == s.disk[Place(bio, k) + x]
  {
    var e := ExtentOf(bio);
    SegmentInside(|s.disk|, |s.ram|, bio, k);
    ExtentFits(|s.disk|, |s.ram|, bio, k);
    assert e.parts[k] == Part(bio.segs[k].addr, bio.segs[k].len) by {
      PartIsSegment(bio, k);
    }
    assert BioSpec(s, e, Read, |e.parts|).ram[bio.segs[k].addr + x] == s.disk[Offset(e, k) + x] by {
      SeparateParts(bio);
      ReadPartByte(s, e, k, x);
    }
  }

  /** A read bio changes no memory outside its segments, and not the device. */
  lemma {:induction false} ReadBioElsewhere(s: State, bio: Bio, a: nat)
    requires Proper(|s.disk|, |s.ram|, bio) && a < |s.ram|
    requires forall k :: 0 <= k < |bio.segs| ==> !Inside(bio.segs[k], a)
    ensures BioAfter(s, bio, Read).ram[a] == s.ram[a] && BioAfter(s, bio, Read).disk == s.disk
  {
    var e := ExtentOf(bio);
    ExtentFits(|s.disk|, |s.ram|, bio, |bio.segs|);
    forall k | 0 <= k < |e.parts|
      ensures !Holds(e.parts[k], a)
    {
      assert !Inside(bio.segs[k], a);
    }
    ReadBioKeeps(s, e, a);
    ReadKeepsDisk(s, e, |e.parts|);
  }

  // ---------------------------------------------------------------- one request

  ghost predicate AllProper(size: nat, ramSize: nat, bios: seq<Bio>) {
    forall b :: 0 <= b < |bios| ==> Proper(size, ramSize, bios[b])
  }

  lemma {:induction false} ExtentsFit(size: nat, ramSize: nat, bios: seq<Bio>)
    requires AllProper(size, ramSize, bios)
    ensures AllInMemory(ramSize, ExtentsOf(bios))
  {
    forall b | 0 <= b < |bios|
      ensures InMemory(ramSize, ExtentsOf(bios)[b])
    {
      ExtentFits(size, ramSize, bios[b], 0);
    }
  }

  /** The state after the first `m` bios of a request. */
  ghost function After(s: State, bios: seq<Bio>, dir: Direction, m: nat): (r: State)
    requires AllProper(|s.disk|, |s.ram|, bios) && m <= |bios|
    ensures |r.disk| == |s.disk| && |r.ram| == |s.ram|
  {
    ExtentsFit(|s.disk|, |s.ram|, bios);
    RequestSpec(s, ExtentsOf(bios), dir, m)
  }

  lemma {:induction false} AfterStep(s: State, bios: seq<Bio>, dir: Direction, m: nat)
    requires AllProper(|s.disk|, |s.ram|, bios) && m < |bios|
    ensures Proper(|s.disk|, |s.ram|, bios[m])
    ensures After(s, bios, dir, m + 1) == BioAfter(After(s, bios, dir, m), bios[m], dir)
  {
    ExtentsFit(|s.disk|, |s.ram|, bios);
  }

  lemma {:induction false} WriteRequestKeepsMemory(s: State, bios: seq<Bio>, m: nat)
    requires AllProper(|s.disk|, |s.ram|, bios) && m <= |bios|
    ensures After(s, bios, Write, m).ram == s.ram
  {
    if m == 0 {
    } else {
      WriteRequestKeepsMemory(s, bios, m - 1);
      AfterStep(s, bios, Write, m - 1);
      WriteBioKeepsMemory(After(s, bios, Write, m - 1), bios[m - 1]);
    }
  }

  /** Bios `b` to `m` do not cover byte `i`. */
  ghost predicate Uncovered(bios: seq<Bio>, b: nat, m: nat, i: nat)
    requires m <= |bios|
  {
    forall c: nat :: b <= c < m ==> !Covers(bios[c], i)
  }

  /** A device byte that the bios from `b` on do not cover is as before them. */
  lemma {:induction false} WriteRequestElsewhere(s: State, bios: seq<Bio>, b: nat, m: nat, i: nat)
    requires AllProper(|s.disk|, |s.ram|, bios) && b <= m <= |bios| && i < |s.disk| && Uncovered(bios, b, m, i)
    ensures After(s, bios, Write, m).disk[i] == After(s, bios, Write, b).disk[i]
    decreases m
  {
    if m == b {
    } else {
      WriteRequestElsewhere(s, bios, b, m - 1, i);
      AfterStep(s, bios, Write, m - 1);
      assert !Covers(bios[m - 1], i);
      WriteBioElsewhere(After(s, bios, Write, m - 1), bios[m - 1], i);
    }
  }

  /** After a write request, a device byte holds what the last bio that covers it took from memory. */
  lemma {:induction false} WriteRequestBytes(s: State, bios: seq<Bio>, b: nat, k: nat, x: nat)
    requires AllProper(|s.disk|, |s.ram|, bios) && b < |bios| && k < |bios[b].segs| && x < bios[b].segs[k].len
    requires Uncovered(bios, b + 1, |bios|, Place(bios[b], k) + x)
    ensures Place(bios[b], k) + x < |s.disk| && bios[b].segs[k].addr + x < |s.ram|
    ensures After(s, bios, Write, |bios|).disk[Place(bios[b], k) + x] == s.ram[bios[b].segs[k].addr + x]
  {
    AfterStep(s, bios, Write, b);
    WriteRequestKeepsMemory(s, bios, b);
    WriteBioBytes(After(s, bios, Write, b), bios[b], k, x);
    WriteRequestElsewhere(s, bios, b + 1, |bios|, Place(bios[b], k) + x);
  }

  // ---------------------------------------------------------------- whole runs

  /** A request as it is queued, with the memory at that time. */
  datatype Request = Request(ram: seq<Byte>, bios: seq<Bio>, dir: Direction)

  ghost predicate ProperRequest(size: nat, q: Request) {
    AllProper(size, |q.ram|, q.bios)
  }

  ghost predicate RunProper(size: nat, reqs: seq<Request>) {
    forall t :: 0 <= t < |reqs| ==> ProperRequest(size, reqs[t])
  }

  /** The device after one request. */
  ghost function Served(disk: seq<Byte>, q: Request): (r: seq<Byte>)
    ensures |r| == |disk|
  {
    if ProperRequest(|disk|, q) then After(State(disk, q.ram), q.bios, q.dir, |q.bios|).disk else disk
  }

  /** The device after the first `m` requests, each serving the device by `f`. */
  ghost function Fold(f: (seq<Byte>, Request) -> seq<Byte>, disk: seq<Byte>, reqs: seq<Request>, m: nat): seq<Byte>
    requires m <= |reqs|
  {
    if m == 0 then disk else f(Fold(f, disk, reqs, m - 1), reqs[m - 1])
  }

  /** What every request from `t` on keeps is kept by all of them. */
  lemma {:induction false} FoldKeeps(f: (seq<Byte>, Request) -> seq<Byte>, disk: seq<Byte>, reqs: seq<Request>,
                                     t: nat, m: nat, p: seq<Byte> -> bool)
    requires t <= m <= |reqs| && p(Fold(f, disk, reqs, t))
    requires forall d, u: nat :: t <= u < m && p(d) ==> p(f(d, reqs[u]))
    ensures p(Fold(f, disk, reqs, m))
    decreases m
  {
    if m == t {
    } else {
      FoldKeeps(f, disk, reqs, t, m - 1, p);
    }
  }

  ghost function DiskAfter(disk: seq<Byte>, reqs: seq<Request>, m: nat): (r: seq<Byte>)
    requires m <= |reqs|
    ensures |r| == |disk|
  {
    FoldKeeps(Served, disk, reqs, 0, m, d => |d| == |disk|);
    Fold(Served, disk, reqs, m)
  }

  ghost predicate Spares(q: Request, i: nat) {
    q.dir.Write? ==> Uncovered(q.bios, 0, |q.bios|, i)
  }

  /** Requests `t` to `m` do not write byte `i`. */
  ghost predicate Unwritten(reqs: seq<Request>, t: nat, m: nat, i: nat)
    requires m <= |reqs|
  {
    forall u: nat :: t <= u < m ==> Spares(reqs[u], i)
  }

  lemma {:induction false} ReadRequestKeepsDevice(s: State, bios: seq<Bio>, m: nat)
    requires AllProper(|s.disk|, |s.ram|, bios) && m <= |bios|
    ensures After(s, bios, Read, m).disk == s.disk
  {
    ExtentsFit(|s.disk|, |s.ram|, bios);
    ReadRequestKeepsDisk(s, ExtentsOf(bios), m);
  }

  lemma {:induction false} ServedElsewhere(disk: seq<Byte>, q: Request, i: nat)
    requires ProperRequest(|disk|, q) && i < |disk| && Spares(q, i)
    ensures Served(disk, q)[i] == disk[i]
  {
    var s := State(disk, q.ram);
    if q.dir.Write? {
      WriteRequestElsewhere(s, q.bios, 0, |q.bios|, i);
    } else {
      ReadRequestKeepsDevice(s, q.bios, |q.bios|);
    }
  }

  lemma {:induction false} StaysUnwritten(disk: seq<Byte>, reqs: seq<Request>, t: nat, m: nat, i: nat)
    requires RunProper(|disk|, reqs) && t <= m <= |reqs| && i < |disk| && Unwritten(reqs, t, m, i)
    ensures DiskAfter(disk, reqs, m)[i] == DiskAfter(disk, reqs, t)[i]
  {
    var v := DiskAfter(disk, reqs, t)[i];
    var p := (d: seq<Byte>) => |d| == |disk| && d[i] == v;
    forall d, u: nat | t <= u < m && p(d)
      ensures p(Served(d, reqs[u]))
    {
      assert Spares(reqs[u], i) && ProperRequest(|d|, reqs[u]);
      ServedElsewhere(d, reqs[u], i);
    }
    FoldKeeps(Served, disk, reqs, t, m, p);
  }

  /** Byte `x` of segment `k` of bio `b` of a write request, where no later bio of the request covers it. */
  ghost predicate Final(q: Request, b: nat, k: nat, x: nat) {
    && q.dir.Write? && b < |q.bios| && k < |q.bios[b].segs| && x < q.bios[b].segs[k].len
    && Uncovered(q.bios, b + 1, |q.bios|, Place(q.bios[b], k) + x)
  }

  /** Where such a byte comes from in memory, and where it goes on the device. */
  ghost function Source(q: Request, b: nat, k: nat, x: nat): nat
    requires Final(q, b, k, x)
  {
    q.bios[b].segs[k].addr + x
  }

  ghost function Target(q: Request, b: nat, k: nat, x: nat): nat
    requires Final(q, b, k, x)
  {
    q.bios[b].sector * 512 + TotalLength(q.bios[b], k) + x
  }

  lemma {:induction false} ServedBytes(disk: seq<Byte>, q: Request, b: nat, k: nat, x: nat)
    requires ProperRequest(|disk|, q) && Final(q, b, k, x)
    ensures Target(q, b, k, x) < |disk| && Source(q, b, k, x) < |q.ram|
    ensures Served(disk, q)[Target(q, b, k, x)] == q.ram[Source(q, b, k, x)]
  {
    WriteRequestBytes(State(disk, q.ram), q.bios, b, k, x);
  }

  /** After every run of requests, a device byte is what the last write that covers it took from that
      segment's address in the memory of its time. */
  lemma {:induction false} LastBioWins(disk: seq<Byte>, reqs: seq<Request>, t: nat, b: nat, k: nat, x: nat)
    requires RunProper(|disk|, reqs) && t < |reqs| && Final(reqs[t], b, k, x)
    requires Unwritten(reqs, t + 1, |reqs|, Target(reqs[t], b, k, x))
    ensures Target(reqs[t], b, k, x) < |disk| && Source(reqs[t], b, k, x) < |reqs[t].ram|
    ensures DiskAfter(disk, reqs, |reqs|)[Target(reqs[t], b, k, x)] == reqs[t].ram[Source(reqs[t], b, k, x)]
  {
    var i := Target(reqs[t], b, k, x);
    ServedBytes(DiskAfter(disk, reqs, t), reqs[t], b, k, x);
    StaysUnwritten(disk, reqs, t + 1, |reqs|, i);
  }

  /** A byte of the new device that no write of the run covers still is 0xAA. */
  lemma {:induction false} NeverWritten(reqs: seq<Request>, i: nat)
    requires RunProper(1024 * 1024, reqs) && i < 1024 * 1024 && Unwritten(reqs, 0, |reqs|, i)
    ensures |InitialDisk()| == 1024 * 1024 && DiskAfter(InitialDisk(), reqs, |reqs|)[i] == 0xAA
  {
    StaysUnwritten(InitialDisk(), reqs, 0, |reqs|, i);
  }

  /** After every run, a read bio returns what the writes of the run left: byte `x` of its segment `k` is
      the byte of the last write that covers the same place. */
  lemma {:induction false} ReadReturnsLastWrite(disk: seq<Byte>, reqs: seq<Request>, t: nat, b: nat, k': nat, x': nat,
                                                ram: seq<Byte>, bio: Bio, k: nat, x: nat)
    requires RunProper(|disk|, reqs) && t < |reqs| && Final(reqs[t], b, k', x')
    requires Unwritten(reqs, t + 1, |reqs|, Target(reqs[t], b, k', x'))
    requires Proper(|disk|, |ram|, bio) && Separate(bio) && k < |bio.segs| && x < bio.segs[k].len
    requires Place(bio, k) + x == Target(reqs[t], b, k', x')
    ensures Source(reqs[t], b, k', x') < |reqs[t].ram| && bio.segs[k].addr + x < |ram|
    ensures BioAfter(State(DiskAfter(disk, reqs, |reqs|), ram), bio, Read).ram[bio.segs[k].addr + x]
         == reqs[t].ram[Source(reqs[t], b, k', x')]
  {
    LastBioWins(disk, reqs, t, b, k', x');
    ReadBioBytes(State(DiskAfter(disk, reqs, |reqs|), ram), bio, k, x);
  }
}
